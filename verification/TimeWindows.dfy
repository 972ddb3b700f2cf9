/** Cutting a sorted list of trades into aligned time windows. */
module TimeWindows {
  import opened Trades

  datatype TimeWindow = TimeWindow(startTime: int, endTime: int, trades: seq<TradeEvent>)

  /** The start of the aligned window that holds time t. */
  function FloorTo(t: int, w: int): int
    requires w > 0
  {
    (t / w) * w
  }

  lemma FloorHolds(t: int, w: int)
    requires w > 0
    ensures FloorTo(t, w) <= t < FloorTo(t, w) + w
  {}

  lemma Scale(a: int, b: int, w: int)
    requires w > 0 && a < b
    ensures a * w + w <= b * w
  {
    assert (a + 1) * w <= b * w;
  }

  /** Two times share a window or their windows are at least one window apart. */
  lemma FloorOrder(t: int, u: int, w: int)
    requires w > 0 && t <= u
    ensures FloorTo(t, w) == FloorTo(u, w) || FloorTo(t, w) + w <= FloorTo(u, w)
    ensures u < FloorTo(t, w) + w <==> FloorTo(t, w) == FloorTo(u, w)
  {
    FloorHolds(t, w);
    FloorHolds(u, w);
    if t / w < u / w {
      Scale(t / w, u / w, w);
    } else if u / w < t / w {
      Scale(u / w, t / w, w);
    }
  }

  /** Where the code puts the window of t: rounding towards zero overshoots a negative time. */
  function WindowStart(t: int, w: int): int
    requires w > 0
  {
    GoDiv(t, w) * w
  }

  predicate StartsWell(t: int, w: int)
    requires w > 0
  {
    t >= 0 || FloorTo(t, w) == t
  }

  lemma StartIsFloor(t: int, w: int)
    requires w > 0
    ensures StartsWell(t, w) ==> WindowStart(t, w) == FloorTo(t, w)
    ensures !StartsWell(t, w) ==> WindowStart(t, w) > t
  {
    if t < 0 {
      NegativeStart(t, w);
      FloorHolds(t, w);
      hide FloorTo, WindowStart;
      if FloorTo(-t, w) == -t {
        MultipleIsFloor(-t, w);
      } else if FloorTo(t, w) == t {
        MultipleIsFloor(t, w);
      }
    }
  }

  lemma NegativeStart(t: int, w: int)
    requires w > 0 && t < 0
    ensures WindowStart(t, w) == -FloorTo(-t, w) && FloorTo(-t, w) <= -t
  {
    FloorHolds(-t, w);
    Negated(-t / w, w);
  }

  lemma Negated(q: int, w: int)
    ensures -q * w == -(q * w)
  {
  }

  /** A multiple of the window is its own floor, and so is its negative. */
  lemma MultipleIsFloor(t: int, w: int)
    requires w > 0 && FloorTo(t, w) == t
    ensures FloorTo(-t, w) == -t
  {
    var q := t / w;
    Negated(q, w);
    ModUnique(-t, w, -q, 0);
    FloorIsMod(-t, w);
  }

  lemma FloorIsMod(t: int, w: int)
    requires w > 0
    ensures FloorTo(t, w) == t - t % w
  {
  }

  /** The windows so far after one more trade. */
  function Place(windows: seq<TimeWindow>, t: TradeEvent, w: int): seq<TimeWindow>
    requires w > 0
  {
    var n := |windows| - 1;
    if windows == [] || t.timestamp >= windows[n].endTime then
      windows + [TimeWindow(WindowStart(t.timestamp, w), WindowStart(t.timestamp, w) + w, [t])]
    else
      windows[..n] + [windows[n].(trades := windows[n].trades + [t])]
  }

  function Windows(trades: seq<TradeEvent>, w: int): seq<TimeWindow>
    requires w > 0
  {
    if trades == [] then []
    else Place(Windows(trades[..|trades| - 1], w), trades[|trades| - 1], w)
  }

  function Flatten(windows: seq<TimeWindow>): seq<TradeEvent> {
    if windows == [] then [] else Flatten(windows[..|windows| - 1]) + windows[|windows| - 1].trades
  }

  predicate InWindow(t: TradeEvent, start: int, w: int)
    requires w > 0
  {
    FloorTo(t.timestamp, w) == start
  }

  /** One whole aligned window: not empty, every trade in the group it is named after. */
  predicate IsGroup(win: TimeWindow, w: int)
    requires w > 0
  {
    && win.trades != [] && win.endTime == win.startTime + w
    && forall i :: 0 <= i < |win.trades| ==> InWindow(win.trades[i], win.startTime, w)
  }

  predicate Before(a: TimeWindow, b: TimeWindow) {
    a.endTime <= b.startTime
  }

  /** The canonical grouping: consecutive pieces of the list, each one aligned group, disjoint and increasing. */
  ghost predicate IsGrouping(windows: seq<TimeWindow>, trades: seq<TradeEvent>, w: int)
    requires w > 0
  {
    && Flatten(windows) == trades
    && (forall i :: 0 <= i < |windows| ==> IsGroup(windows[i], w))
    && forall i, j :: 0 <= i < j < |windows| ==> Before(windows[i], windows[j])
  }

  predicate OpensGroup(trades: seq<TradeEvent>, i: nat, w: int)
    requires w > 0 && i < |trades|
  {
    i == 0 || FloorTo(trades[i - 1].timestamp, w) != FloorTo(trades[i].timestamp, w)
  }

  /** Every trade that opens a group is at a non-negative time or exactly on a boundary. */
  predicate GroupsStartWell(trades: seq<TradeEvent>, w: int)
    requires w > 0
  {
    forall i :: 0 <= i < |trades| && OpensGroup(trades, i, w) ==> StartsWell(trades[i].timestamp, w)
  }

  ghost predicate LateStart(win: TimeWindow) {
    win.trades != [] && win.trades[0].timestamp < win.startTime
  }

  ghost predicate SomeLateStart(windows: seq<TimeWindow>) {
    exists i :: 0 <= i < |windows| && LateStart(windows[i])
  }

  lemma LateStartIsNoGrouping(windows: seq<TimeWindow>, trades: seq<TradeEvent>, w: int)
    requires w > 0 && SomeLateStart(windows)
    ensures !IsGrouping(windows, trades, w)
  {
    var i :| 0 <= i < |windows| && LateStart(windows[i]);
    FloorHolds(windows[i].trades[0].timestamp, w);
    assert IsGroup(windows[i], w) ==> InWindow(windows[i].trades[0], windows[i].startTime, w);
  }

  lemma FlattenSnoc(windows: seq<TimeWindow>, win: TimeWindow)
    ensures Flatten(windows + [win]) == Flatten(windows) + win.trades
  {
    assert (windows + [win])[..|windows|] == windows;
  }

  lemma FlattenPlace(windows: seq<TimeWindow>, t: TradeEvent, w: int)
    requires w > 0
    ensures Flatten(Place(windows, t, w)) == Flatten(windows) + [t]
  {
    var n := |windows| - 1;
    if windows == [] || t.timestamp >= windows[n].endTime {
      FlattenSnoc(windows, TimeWindow(WindowStart(t.timestamp, w), WindowStart(t.timestamp, w) + w, [t]));
    } else {
      hide GoDiv;
      FlattenSnoc(windows[..n], windows[n].(trades := windows[n].trades + [t]));
    }
  }

  lemma LateStartStays(windows: seq<TimeWindow>, t: TradeEvent, w: int)
    requires w > 0 && SomeLateStart(windows)
    ensures SomeLateStart(Place(windows, t, w))
  {
    var i :| 0 <= i < |windows| && LateStart(windows[i]);
    assert LateStart(Place(windows, t, w)[i]);
  }

  /** A later trade joins the last window exactly when it belongs to the same group. */
  lemma PlaceInGrouping(windows: seq<TimeWindow>, trades: seq<TradeEvent>, t: TradeEvent, w: int)
    requires w > 0 && trades != [] && IsGrouping(windows, trades, w)
    requires trades[|trades| - 1].timestamp <= t.timestamp
    ensures var same := FloorTo(trades[|trades| - 1].timestamp, w) == FloorTo(t.timestamp, w);
            if same || StartsWell(t.timestamp, w) then IsGrouping(Place(windows, t, w), trades + [t], w)
            else SomeLateStart(Place(windows, t, w))
  {
    hide GoDiv, FloorTo;
    var n := |windows| - 1;
    var last := windows[n];
    assert IsGroup(last, w);
    var latest := last.trades[|last.trades| - 1];
    assert latest == trades[|trades| - 1] && InWindow(latest, last.startTime, w);
    FloorOrder(latest.timestamp, t.timestamp, w);
    StartIsFloor(t.timestamp, w);
    FlattenPlace(windows, t, w);
    if t.timestamp >= last.endTime {
      var new_ := TimeWindow(WindowStart(t.timestamp, w), WindowStart(t.timestamp, w) + w, [t]);
      assert Place(windows, t, w) == windows + [new_];
      if StartsWell(t.timestamp, w) {
        assert IsGroup(new_, w);
        forall i | 0 <= i < |windows| ensures Before(windows[i], new_) {
          assert i < n ==> Before(windows[i], last);
        }
      } else {
        assert LateStart(Place(windows, t, w)[|windows|]);
      }
    } else {
      var more := last.(trades := last.trades + [t]);
      assert IsGroup(more, w);
      forall i | 0 <= i < n ensures Before(windows[i], more) {
        assert Before(windows[i], last);
      }
    }
  }

  lemma SingleGroup(win: TimeWindow, w: int)
    requires w > 0 && IsGroup(win, w)
    ensures IsGrouping([win], win.trades, w)
  {
    hide IsGroup;
    assert [] + [win] == [win] && [] + win.trades == win.trades;
    FlattenSnoc([], win);
  }

  lemma FirstWindow(t: TradeEvent, w: int)
    requires w > 0
    ensures if StartsWell(t.timestamp, w) then IsGrouping(Place([], t, w), [t], w) else SomeLateStart(Place([], t, w))
  {
    StartIsFloor(t.timestamp, w);
    hide GoDiv, FloorTo, StartsWell, WindowStart, IsGrouping;
    var new_ := TimeWindow(WindowStart(t.timestamp, w), WindowStart(t.timestamp, w) + w, [t]);
    assert Place([], t, w) == [new_];
    if StartsWell(t.timestamp, w) {
      SingleGroup(new_, w);
    } else {
      assert LateStart(Place([], t, w)[0]);
    }
  }

  lemma GroupsStartWellSnoc(trades: seq<TradeEvent>, w: int)
    requires w > 0 && trades != []
    ensures var n := |trades| - 1;
            GroupsStartWell(trades, w) <==>
            GroupsStartWell(trades[..n], w) && (OpensGroup(trades, n, w) ==> StartsWell(trades[n].timestamp, w))
  {
    hide FloorTo, StartsWell;
    var n := |trades| - 1;
    assert forall i :: 0 <= i < n ==> OpensGroup(trades[..n], i, w) == OpensGroup(trades, i, w);
  }

  lemma WindowsStep(trades: seq<TradeEvent>, w: int)
    requires w > 0 && trades != []
    ensures var n := |trades| - 1;
            Windows(trades, w) == Place(Windows(trades[..n], w), trades[n], w) && trades[..n] + [trades[n]] == trades
  {}

  lemma SortedPrefix(trades: seq<TradeEvent>)
    requires SortedByTime(trades) && trades != []
    ensures var n := |trades| - 1;
            SortedByTime(trades[..n]) && (n > 0 ==> trades[n - 1].timestamp <= trades[n].timestamp)
  {}

  lemma {:induction false} WindowsOfSorted(trades: seq<TradeEvent>, w: int)
    requires w > 0 && SortedByTime(trades)
    ensures if GroupsStartWell(trades, w) then IsGrouping(Windows(trades, w), trades, w) else SomeLateStart(Windows(trades, w))
  {
    if trades != [] {
      var n := |trades| - 1;
      var before, t := trades[..n], trades[n];
      assert OpensGroup(trades, n, w) <==> before == [] || FloorTo(before[n - 1].timestamp, w) != FloorTo(t.timestamp, w);
      assert before == [] ==> GroupsStartWell(before, w) && Windows(before, w) == [];
      hide *;
      WindowsStep(trades, w);
      SortedPrefix(trades);
      WindowsOfSorted(before, w);
      GroupsStartWellSnoc(trades, w);
      if before == [] {
        FirstWindow(t, w);
      } else if GroupsStartWell(before, w) {
        PlaceInGrouping(Windows(before, w), before, t, w);
      } else {
        LateStartStays(Windows(before, w), t, w);
      }
    }
  }

  /** No trade is lost, doubled or moved, at any times. */
  lemma {:induction false} WindowsKeepTrades(trades: seq<TradeEvent>, w: int)
    requires w > 0
    ensures Flatten(Windows(trades, w)) == trades
  {
    if trades != [] {
      WindowsKeepTrades(trades[..|trades| - 1], w);
      WindowsStep(trades, w);
      FlattenPlace(Windows(trades[..|trades| - 1], w), trades[|trades| - 1], w);
    }
  }

  /** The windows are the canonical grouping exactly when each group starts well. */
  lemma WindowsAreGroupingIff(trades: seq<TradeEvent>, w: int)
    requires w > 0 && SortedByTime(trades)
    ensures IsGrouping(Windows(trades, w), trades, w) <==> GroupsStartWell(trades, w)
  {
    WindowsOfSorted(trades, w);
    if !GroupsStartWell(trades, w) {
      LateStartIsNoGrouping(Windows(trades, w), trades, w);
    }
  }

  /** In particular for every list of trades at Unix times. */
  lemma WindowsAreGrouping(trades: seq<TradeEvent>, w: int)
    requires w > 0 && SortedByTime(trades)
    requires forall i :: 0 <= i < |trades| ==> trades[i].timestamp >= 0
    ensures IsGrouping(Windows(trades, w), trades, w)
  {
    WindowsAreGroupingIff(trades, w);
  }

  /** A grouping's bounds: every trade of a window lies in [startTime, endTime), on the window grid. */
  lemma GroupBounds(win: TimeWindow, w: int)
    requires w > 0 && IsGroup(win, w)
    ensures win.startTime % w == 0
    ensures forall i :: 0 <= i < |win.trades| ==> win.startTime <= win.trades[i].timestamp < win.endTime
  {
    var t := win.trades[0].timestamp;
    assert InWindow(win.trades[0], win.startTime, w);
    ModUnique(win.startTime, w, t / w, 0);
    forall i | 0 <= i < |win.trades| ensures win.startTime <= win.trades[i].timestamp < win.endTime {
      assert InWindow(win.trades[i], win.startTime, w);
      FloorHolds(win.trades[i].timestamp, w);
    }
  }

  /** There is only one canonical grouping of a list. */
  lemma {:induction false} GroupingIsUnique(a: seq<TimeWindow>, b: seq<TimeWindow>, trades: seq<TradeEvent>, w: int)
    requires w > 0 && IsGrouping(a, trades, w) && IsGrouping(b, trades, w)
    ensures a == b
    decreases |a|
  {
    if a == [] || b == [] {
      NoWindowsNoTrades(a, w);
      NoWindowsNoTrades(b, w);
    } else {
      var n, m := |a| - 1, |b| - 1;
      LastGroups(a, b, trades, w);
      assert a[..n] + [a[n]] == a && b[..m] + [b[m]] == b;
      FlattenSnoc(a[..n], a[n]);
      FlattenSnoc(b[..m], b[m]);
      PrefixIsGrouping(a, w);
      PrefixIsGrouping(b, w);
      SameTail(Flatten(a[..n]), Flatten(b[..m]), a[n].trades, b[m].trades);
      hide *;
      GroupingIsUnique(a[..n], b[..m], Flatten(a[..n]), w);
    }
  }

  lemma NoWindowsNoTrades(a: seq<TimeWindow>, w: int)
    requires w > 0 && forall i :: 0 <= i < |a| ==> IsGroup(a[i], w)
    ensures a == [] <==> Flatten(a) == []
  {
    if a != [] {
      assert IsGroup(a[|a| - 1], w);
    }
  }

  lemma PrefixIsGrouping(a: seq<TimeWindow>, w: int)
    requires w > 0 && a != [] && IsGrouping(a, Flatten(a), w)
    ensures IsGrouping(a[..|a| - 1], Flatten(a[..|a| - 1]), w)
  {
    hide IsGroup, Flatten;
  }

  lemma SameTail<T>(a: seq<T>, b: seq<T>, c: seq<T>, d: seq<T>)
    requires a + c == b + d && |c| == |d|
    ensures a == b && c == d
  {
    assert a == (a + c)[..|a|] && b == (b + d)[..|b|];
    assert c == (a + c)[|a|..] && d == (b + d)[|b|..];
  }

  /** Trades before the last window are in earlier groups. */
  lemma {:induction false} EarlierGroups(a: seq<TimeWindow>, start: int, k: nat, w: int)
    requires w > 0 && (forall i :: 0 <= i < |a| ==> IsGroup(a[i], w) && a[i].endTime <= start)
    requires k < |Flatten(a)|
    ensures FloorTo(Flatten(a)[k].timestamp, w) < start
  {
    var n := |a| - 1;
    var before := Flatten(a[..n]);
    if k < |before| {
      EarlierGroups(a[..n], start, k, w);
    } else {
      assert InWindow(a[n].trades[k - |before|], a[n].startTime, w);
    }
  }

  /** The last window holds exactly the trades of the last group. */
  lemma LastGroup(a: seq<TimeWindow>, trades: seq<TradeEvent>, w: int, k: nat)
    requires w > 0 && a != [] && IsGrouping(a, trades, w) && k < |trades|
    ensures FloorTo(trades[k].timestamp, w) == a[|a| - 1].startTime <==> k >= |Flatten(a[..|a| - 1])|
  {
    var n := |a| - 1;
    var before := Flatten(a[..n]);
    assert IsGroup(a[n], w) && trades == before + a[n].trades;
    if k < |before| {
      forall i | 0 <= i < n ensures IsGroup(a[..n][i], w) && a[..n][i].endTime <= a[n].startTime {
        assert Before(a[i], a[n]) && IsGroup(a[i], w);
      }
      EarlierGroups(a[..n], a[n].startTime, k, w);
    } else {
      assert InWindow(a[n].trades[k - |before|], a[n].startTime, w);
    }
  }

  lemma LastGroups(a: seq<TimeWindow>, b: seq<TimeWindow>, trades: seq<TradeEvent>, w: int)
    requires w > 0 && a != [] && b != [] && IsGrouping(a, trades, w) && IsGrouping(b, trades, w)
    ensures |a[|a| - 1].trades| == |b[|b| - 1].trades|
    ensures a[|a| - 1].startTime == b[|b| - 1].startTime && a[|a| - 1].endTime == b[|b| - 1].endTime
  {
    var la, lb := a[|a| - 1], b[|b| - 1];
    assert IsGroup(la, w) && IsGroup(lb, w);
    var p, q := |Flatten(a[..|a| - 1])|, |Flatten(b[..|b| - 1])|;
    assert |trades| == p + |la.trades| == q + |lb.trades|;
    hide FloorTo, IsGrouping, IsGroup;
    LastGroup(a, trades, w, |trades| - 1);
    LastGroup(b, trades, w, |trades| - 1);
    LastGroup(a, trades, w, p);
    LastGroup(b, trades, w, p);
    LastGroup(a, trades, w, q);
    LastGroup(b, trades, w, q);
  }

  lemma PlaceLast(windows: seq<TimeWindow>, current: TimeWindow, t: TradeEvent, w: int)
    requires w > 0
    ensures Place(windows + [current], t, w)
         == if t.timestamp >= current.endTime
            then windows + [current] + [TimeWindow(WindowStart(t.timestamp, w), WindowStart(t.timestamp, w) + w, [t])]
            else windows + [current.(trades := current.trades + [t])]
    ensures Place([], t, w) == [TimeWindow(WindowStart(t.timestamp, w), WindowStart(t.timestamp, w) + w, [t])]
  {
    assert (windows + [current])[..|windows|] == windows;
  }

  lemma WindowsOfNone(w: int)
    requires w > 0
    ensures Windows([], w) == []
  {}

  /** The windows so far: those closed and, once there is one, the window being filled. */
  function SoFar(windows: seq<TimeWindow>, open: bool, current: TimeWindow): seq<TimeWindow> {
    if open then windows + [current] else []
  }

  /** One trade: close the window being filled if the trade is past its end, then add the trade. */
  method AddToWindow(closed: seq<TimeWindow>, open: bool, filling: TimeWindow, trade: TradeEvent, windowSizeMs: int)
    returns (windows: seq<TimeWindow>, current: TimeWindow)
    requires windowSizeMs > 0 && (if open then filling.trades != [] else closed == [])
    ensures SoFar(windows, true, current) == Place(SoFar(closed, open, filling), trade, windowSizeMs)
    ensures current.trades != []
  {
    PlaceLast(closed, filling, trade, windowSizeMs);
    hide Place;
    windows, current := closed, filling;
    if !open || trade.timestamp >= current.endTime {
      if open && |current.trades| > 0 {
        windows := windows + [current];
      }
      var windowStart := WindowStart(trade.timestamp, windowSizeMs);
      current := TimeWindow(windowStart, windowStart + windowSizeMs, []);
    }
    assert [] + [trade] == [trade] && [] + [current] == [current];
    current := current.(trades := current.trades + [trade]);
    assert windows == [] ==> windows + [current] == [current];
  }

  /** The loop of the code: the window being filled is kept apart from those already closed. */
  method CreateTimeWindows(trades: seq<TradeEvent>, windowSizeMs: int) returns (windows: seq<TimeWindow>)
    requires windowSizeMs > 0 && SortedByTime(trades)
    ensures windows == Windows(trades, windowSizeMs)
    ensures IsGrouping(windows, trades, windowSizeMs) <==> GroupsStartWell(trades, windowSizeMs)
  {
    WindowsAreGroupingIff(trades, windowSizeMs);
    WindowsOfNone(windowSizeMs);
    hide Windows, GroupsStartWell, IsGrouping, Place, SortedByTime;
    windows := [];
    var current, open := TimeWindow(0, 0, []), false;
    for i := 0 to |trades|
      invariant open <==> i > 0
      invariant Windows(trades[..i], windowSizeMs) == SoFar(windows, open, current)
      invariant if open then current.trades != [] else windows == []
    {
      assert trades[..i + 1][..i] == trades[..i];
      WindowsStep(trades[..i + 1], windowSizeMs);
      windows, current := AddToWindow(windows, open, current, trades[i], windowSizeMs);
      open := true;
    }
    assert trades[..|trades|] == trades;
    if open && |current.trades| > 0 {
      windows := windows + [current];
    }
  }
}
