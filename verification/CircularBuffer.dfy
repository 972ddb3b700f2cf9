/** The hot ring: a fixed array with a read and a write position and a timestamp index.
    While no store fills it, it is a FIFO queue. */
module CircularBuffers {
  import opened Trades

  datatype Result<T> = Ok(value: T) | Error

  const EMPTY_SLOT: TradeEvent := TradeEvent("", "", "", "", NotANumber, NotANumber, "", 0, 0, 0, false, "")

  /** Where the element `i` places after the read position lives. */
  function Slot(readPos: int, i: int, capacity: int): int {
    if readPos + i < capacity then readPos + i else readPos + i - capacity
  }

  /** The live trades of an array, oldest first. */
  function Queue(slots: seq<TradeEvent>, readPos: int, size: nat): (q: seq<TradeEvent>)
    requires 0 <= readPos < |slots| && size < |slots|
    ensures |q| == size
  {
    seq(size, i requires 0 <= i < size => slots[Slot(readPos, i, |slots|)])
  }

  lemma QueueAppend(slots: seq<TradeEvent>, readPos: int, size: nat, trade: TradeEvent)
    requires 0 <= readPos < |slots| && size + 1 < |slots|
    ensures Queue(slots[Slot(readPos, size, |slots|) := trade], readPos, size + 1) == Queue(slots, readPos, size) + [trade]
  {
  }

  /** Writing outside the live slots changes nothing. */
  lemma QueueUntouched(slots: seq<TradeEvent>, readPos: int, size: nat, trade: TradeEvent)
    requires 0 <= readPos < |slots| && size < |slots|
    ensures Queue(slots[Slot(readPos, size, |slots|) := trade], readPos, size) == Queue(slots, readPos, size)
  {
  }

  /** Clearing the oldest slot and stepping past it moves the head of the queue to what was
      extracted before. */
  lemma QueueDrop(slots: seq<TradeEvent>, readPos: int, size: nat, extracted: seq<TradeEvent>)
    requires 0 <= readPos < |slots| && 0 < size < |slots|
    ensures extracted + Queue(slots, readPos, size)
            == extracted + [slots[readPos]] + Queue(slots[readPos := EMPTY_SLOT], Slot(readPos, 1, |slots|), size - 1)
  {
    var q, q' := Queue(slots, readPos, size), Queue(slots[readPos := EMPTY_SLOT], Slot(readPos, 1, |slots|), size - 1);
    assert q == [slots[readPos]] + q';
  }

  lemma QueueHead(slots: seq<TradeEvent>, readPos: int, size: nat)
    requires 0 <= readPos < |slots| && 0 < size < |slots|
    ensures Queue(slots, readPos, size)[0] == slots[readPos]
  {
  }

  lemma SlotSum(readPos: int, i: nat, j: nat, capacity: int)
    requires 0 <= readPos < capacity && i + j < capacity
    ensures Slot(Slot(readPos, i, capacity), j, capacity) == Slot(readPos, i + j, capacity)
  {
  }

  lemma NoneExtracted(contents: seq<TradeEvent>, timeIndex: map<int, int>, readPos: int, capacity: int)
    requires 0 <= readPos < capacity
    ensures [] + contents == contents && timeIndex - Stamps([]) == timeIndex && Slot(readPos, 0, capacity) == readPos
  {
  }

  /** `(pos + step) % capacity` */
  method Advance(pos: int, step: int, capacity: int) returns (p: int)
    requires 0 <= pos < capacity && 0 <= step <= capacity
    ensures p == Slot(pos, step, capacity) && 0 <= p < capacity
  {
    ModOneLap(pos + step, capacity);
    p := (pos + step) % capacity;
  }

  /** Position of the newest trade with that stamp, or -1. */
  function Newest(contents: seq<TradeEvent>, timestamp: int): (k: int)
    ensures -1 <= k < |contents|
    ensures k >= 0 ==> contents[k].timestamp == timestamp
    ensures forall j :: k < j < |contents| ==> contents[j].timestamp != timestamp
  {
    if contents == [] then -1
    else if contents[|contents| - 1].timestamp == timestamp then |contents| - 1
    else Newest(contents[..|contents| - 1], timestamp)
  }

  /** Length of the longest prefix of trades older than the cutoff. */
  function OldPrefix(contents: seq<TradeEvent>, cutoff: int): (m: nat)
    ensures m <= |contents|
    ensures forall i :: 0 <= i < m ==> contents[i].timestamp < cutoff
    ensures m < |contents| ==> contents[m].timestamp >= cutoff
  {
    if contents == [] || contents[0].timestamp >= cutoff then 0 else 1 + OldPrefix(contents[1..], cutoff)
  }

  lemma NothingOld(contents: seq<TradeEvent>, cutoff: int, timeIndex: map<int, int>)
    ensures contents == [] ==> OldPrefix(contents, cutoff) == 0 && StampsSeparate(contents, 0)
    ensures timeIndex - Stamps([]) == timeIndex
  {
  }

  lemma NewestIsUnique(contents: seq<TradeEvent>, timestamp: int, k: int)
    requires -1 <= k < |contents|
    requires k >= 0 ==> contents[k].timestamp == timestamp
    requires forall j :: k < j < |contents| ==> contents[j].timestamp != timestamp
    ensures Newest(contents, timestamp) == k
  {
  }

  lemma OldPrefixIsUnique(contents: seq<TradeEvent>, cutoff: int, m: nat)
    requires m <= |contents|
    requires forall i :: 0 <= i < m ==> contents[i].timestamp < cutoff
    requires m < |contents| ==> contents[m].timestamp >= cutoff
    ensures OldPrefix(contents, cutoff) == m
  {
  }

  /** Every entry names the newest live trade with its stamp. */
  ghost predicate IndexSound(timeIndex: map<int, int>, contents: seq<TradeEvent>, readPos: int, capacity: int) {
    forall ts :: ts in timeIndex ==>
      Newest(contents, ts) >= 0 && timeIndex[ts] == Slot(readPos, Newest(contents, ts), capacity)
  }

  /** Every live stamp has an entry. */
  ghost predicate IndexComplete(timeIndex: map<int, int>, contents: seq<TradeEvent>) {
    forall i :: 0 <= i < |contents| ==> contents[i].timestamp in timeIndex
  }

  lemma StillComplete(timeIndex: map<int, int>, contents: seq<TradeEvent>, trade: TradeEvent, pos: int)
    ensures IndexComplete(timeIndex, contents) ==> IndexComplete(timeIndex[trade.timestamp := pos], contents + [trade])
  {
  }

  /** No trade kept shares its stamp with one of the `m` oldest. */
  predicate StampsSeparate(contents: seq<TradeEvent>, m: nat)
    requires m <= |contents|
  {
    forall i, j :: 0 <= i < m <= j < |contents| ==> contents[i].timestamp != contents[j].timestamp
  }

  function Stamps(trades: seq<TradeEvent>): set<int> {
    set t | t in trades :: t.timestamp
  }

  lemma StampsSnoc(trades: seq<TradeEvent>, trade: TradeEvent, timeIndex: map<int, int>)
    ensures timeIndex - Stamps(trades) - {trade.timestamp} == timeIndex - Stamps(trades + [trade])
  {
    assert forall t :: t in trades + [trade] <==> t in trades || t == trade;
    assert Stamps(trades + [trade]) == Stamps(trades) + {trade.timestamp};
  }

  lemma RemainingIndexIsSound(timeIndex: map<int, int>, contents: seq<TradeEvent>, m: nat, readPos: int, capacity: int)
    requires m <= |contents| < capacity && 0 <= readPos < capacity
    requires IndexSound(timeIndex, contents, readPos, capacity)
    ensures IndexSound(timeIndex - Stamps(contents[..m]), contents[m..], Slot(readPos, m, capacity), capacity)
  {
    var rest, gone := contents[m..], Stamps(contents[..m]);
    forall ts | ts in timeIndex - gone
      ensures Newest(rest, ts) >= 0
      ensures timeIndex[ts] == Slot(Slot(readPos, m, capacity), Newest(rest, ts), capacity)
    {
      var k := Newest(contents, ts);
      assert forall i :: 0 <= i < m ==> contents[i] in contents[..m];
      NewestIsUnique(rest, ts, k - m);
    }
  }

  /** Migration keeps the index complete exactly when it splits no group of equal stamps. */
  lemma CompleteIffStampsSeparate(timeIndex: map<int, int>, contents: seq<TradeEvent>, m: nat)
    requires m <= |contents| && IndexComplete(timeIndex, contents)
    ensures IndexComplete(timeIndex - Stamps(contents[..m]), contents[m..]) <==> StampsSeparate(contents, m)
  {
    var gone, rest := Stamps(contents[..m]), contents[m..];
    if StampsSeparate(contents, m) {
      forall j | 0 <= j < |rest| ensures rest[j].timestamp in timeIndex - gone {
        assert contents[m + j] == rest[j];
      }
    } else {
      var i, j :| 0 <= i < m <= j < |contents| && contents[i].timestamp == contents[j].timestamp;
      assert contents[..m][i] in contents[..m];
      assert rest[j - m] == contents[j] && rest[j - m].timestamp in gone;
    }
  }

  /** Arrivals in time order never split equal stamps. */
  lemma SortedSeparates(contents: seq<TradeEvent>, cutoff: int)
    requires SortedByTime(contents)
    ensures StampsSeparate(contents, OldPrefix(contents, cutoff))
  {
  }

  class CircularBuffer {
    const data: array<TradeEvent>
    const capacity: int
    var writePos: int
    var readPos: int
    var full: bool
    var size: int
    var timeIndex: map<int, int>
    var closed: bool

    ghost predicate Sound()
      reads this
    {
      && data.Length == capacity > 0
      && 0 <= readPos < capacity && 0 <= writePos < capacity && size >= 0
    }

    /** The positions agree with the count: true until a store fills the array. */
    ghost predicate InStep()
      reads this
    {
      Sound() && !full && size < capacity && writePos == Slot(readPos, size, capacity)
    }

    ghost function Contents(): (c: seq<TradeEvent>)
      requires InStep()
      reads this, data
      ensures |c| == size
    {
      Queue(data[..], readPos, size)
    }

    ghost predicate Valid()
      reads this, data
    {
      InStep() && IndexSound(timeIndex, Contents(), readPos, capacity)
    }

    constructor (capacity: int)
      requires capacity > 0
      ensures Valid() && fresh(data) && Contents() == [] && !closed && this.capacity == capacity
      ensures IndexComplete(timeIndex, Contents())
    {
      this.capacity := capacity;
      data := new TradeEvent[capacity](_ => EMPTY_SLOT);
      writePos, readPos, full, size, timeIndex, closed := 0, 0, false, 0, map[], false;
    }

    /** A store with room for one more after it appends to the queue; the store that fills the
        array leaves the queue as it was and only raises the full flag. */
    method Store(trade: TradeEvent) returns (r: Result<()>)
      requires Sound()
      modifies this, data
      ensures Sound() && closed == old(closed)
      ensures r.Error? <==> old(closed)
      ensures old(closed) ==> unchanged(this) && unchanged(data)
      ensures old(Valid()) && !closed && old(size) + 1 < capacity ==>
        && Valid() && Contents() == old(Contents()) + [trade] && timeIndex == old(timeIndex)[trade.timestamp := old(writePos)]
        && (old(IndexComplete(timeIndex, Contents())) ==> IndexComplete(timeIndex, Contents()))
      ensures old(Valid()) && !closed && old(size) + 1 == capacity ==>
        full && size == old(size) && Queue(data[..], readPos, size) == old(Contents())
    {
      hide Queue, Newest, IndexSound, IndexComplete, Slot;
      if closed {
        return Error;
      }
      ghost var valid, slots := Valid(), data[..];
      if valid {
        StoreInStep(slots, readPos, size, timeIndex, trade);
        StillComplete(timeIndex, Queue(slots, readPos, size), trade, writePos);
      }
      data[writePos] := trade;
      assert data[..] == slots[writePos := trade];
      timeIndex := timeIndex[trade.timestamp := writePos];
      writePos := Advance(writePos, 1, capacity);
      if writePos == readPos {
        if full {
          var oldTrade := data[readPos];
          timeIndex := timeIndex - {oldTrade.timestamp};
          readPos := Advance(readPos, 1, capacity);
        } else {
          full := true;
        }
      }
      if !full {
        size := size + 1;
      }
      return Ok(());
    }

    /** The queue's trades inside the range, oldest first. */
    method GetRange(startNano: int64, endNano: int64) returns (r: Result<seq<TradeEvent>>)
      requires InStep()
      ensures r == if closed then Error
                   else Ok(Filter(Contents(), (t: TradeEvent) => InRange(t, Millis(startNano), Millis(endNano))))
    {
      if closed {
        return Error;
      }
      var startTimestamp, endTimestamp := Millis(startNano), Millis(endNano);
      ghost var p := (t: TradeEvent) => InRange(t, startTimestamp, endTimestamp);
      var result := [];
      var pos := readPos;
      for i := 0 to size
        invariant pos == Slot(readPos, i, capacity)
        invariant result == Filter(Contents()[..i], p)
      {
        var trade := data[pos];
        assert Contents()[..i + 1] == Contents()[..i] + [trade];
        FilterSnoc(Contents()[..i], trade, p);
        if trade.timestamp >= startTimestamp && trade.timestamp <= endTimestamp {
          result := result + [trade];
        }
        pos := Advance(pos, 1, capacity);
      }
      assert Contents()[..size] == Contents();
      return Ok(result);
    }

    /** Removes and returns exactly the longest prefix older than the cutoff. */
    method ExtractOldTrades(cutoffNano: int64) returns (oldTrades: seq<TradeEvent>)
      requires Valid()
      modifies this, data
      ensures Valid() && closed == old(closed)
      ensures closed ==> oldTrades == [] && Contents() == old(Contents())
      ensures !closed ==>
        var m := OldPrefix(old(Contents()), Millis(cutoffNano));
        && oldTrades == old(Contents())[..m] && Contents() == old(Contents())[m..]
        && timeIndex == old(timeIndex) - Stamps(oldTrades)
        && (old(IndexComplete(timeIndex, Contents())) ==>
              (IndexComplete(timeIndex, Contents()) <==> StampsSeparate(old(Contents()), m)))
    {
      hide Queue, Newest, OldPrefix, IndexSound, IndexComplete, StampsSeparate, Stamps, Millis;
      if closed || size == 0 {
        NothingOld(Contents(), Millis(cutoffNano), timeIndex);
        return [];
      }
      oldTrades := ExtractBefore(Millis(cutoffNano));
      RemainingIndexIsSound(old(timeIndex), old(Contents()), |oldTrades|, old(readPos), capacity);
      OldPrefixIsUnique(old(Contents()), Millis(cutoffNano), |oldTrades|);
      if old(IndexComplete(timeIndex, Contents())) {
        CompleteIffStampsSeparate(old(timeIndex), old(Contents()), |oldTrades|);
      }
      if size < capacity {
        full := false;
      }
    }

    /** The extraction loop. */
    method ExtractBefore(cutoffTimestamp: int) returns (oldTrades: seq<TradeEvent>)
      requires InStep()
      modifies this`readPos, this`size, this`timeIndex, data
      ensures InStep() && readPos == Slot(old(readPos), |oldTrades|, capacity)
      ensures old(Contents()) == oldTrades + Contents()
      ensures timeIndex == old(timeIndex) - Stamps(oldTrades)
      ensures forall k :: 0 <= k < |oldTrades| ==> oldTrades[k].timestamp < cutoffTimestamp
      ensures Contents() != [] ==> Contents()[0].timestamp >= cutoffTimestamp
    {
      hide Queue, Stamps, Slot;
      oldTrades := [];
      ghost var before := Contents();
      NoneExtracted(before, timeIndex, readPos, capacity);
      var originalSize, newReadPos := size, readPos;
      for i := 0 to originalSize
        invariant |oldTrades| == i && size == originalSize - i
        invariant newReadPos == Slot(readPos, i, capacity) && 0 <= newReadPos < capacity
        invariant before == oldTrades + Queue(data[..], newReadPos, size)
        invariant forall k :: 0 <= k < i ==> oldTrades[k].timestamp < cutoffTimestamp
        invariant timeIndex == old(timeIndex) - Stamps(oldTrades)
        invariant readPos == old(readPos)
      {
        var pos := Advance(readPos, i, capacity);
        var trade := data[pos];
        if trade.timestamp < cutoffTimestamp {
          QueueHead(data[..], pos, size);
          QueueDrop(data[..], pos, size, oldTrades);
          SlotSum(readPos, i, 1, capacity);
          StampsSnoc(oldTrades, trade, old(timeIndex));
          oldTrades := oldTrades + [trade];
          Evict(pos, trade.timestamp);
          newReadPos := Advance(pos, 1, capacity);
        } else {
          QueueHead(data[..], pos, size);
          break;
        }
      }
      SlotSum(readPos, |oldTrades|, size, capacity);
      readPos := newReadPos;
    }

    /** Drops a trade from the index, clears its slot and counts down. */
    method Evict(pos: int, timestamp: int64)
      requires Sound() && 0 <= pos < capacity && size > 0
      modifies this`timeIndex, this`size, data
      ensures timeIndex == old(timeIndex) - {timestamp} && size == old(size) - 1
      ensures data[..] == old(data[..])[pos := EMPTY_SLOT]
    {
      timeIndex := timeIndex - {timestamp};
      data[pos] := EMPTY_SLOT;
      size := size - 1;
    }

    method GetLatestTrade() returns (r: Result<TradeEvent>)
      requires InStep()
      ensures r == if closed || size == 0 then Error else Ok(Contents()[size - 1])
    {
      if closed || size == 0 {
        return Error;
      }
      var lastPos := writePos - 1;
      if lastPos < 0 {
        lastPos := capacity - 1;
      }
      return Ok(data[lastPos]);
    }

    method GetOldestTrade() returns (r: Result<TradeEvent>)
      requires InStep()
      ensures r == if closed || size == 0 then Error else Ok(Contents()[0])
    {
      if closed || size == 0 {
        return Error;
      }
      return Ok(data[readPos]);
    }

    /** A hit is always the newest live trade with that stamp; with a complete index a miss
        means there is none. */
    method FindByTimestamp(timestamp: int64) returns (trade: TradeEvent, found: bool)
      requires Valid()
      ensures found ==> !closed && Newest(Contents(), timestamp) >= 0 && trade == Contents()[Newest(Contents(), timestamp)]
      ensures !closed && IndexComplete(timeIndex, Contents()) ==> (found <==> Newest(Contents(), timestamp) >= 0)
    {
      if closed || timestamp !in timeIndex {
        return EMPTY_SLOT, false;
      }
      return data[timeIndex[timestamp]], true;
    }
  }

  lemma StoredIsAppended(before: seq<TradeEvent>, trade: TradeEvent, timeIndex: map<int, int>, readPos: int, capacity: int)
    requires IndexSound(timeIndex, before, readPos, capacity)
    ensures IndexSound(timeIndex[trade.timestamp := Slot(readPos, |before|, capacity)], before + [trade], readPos, capacity)
  {
    var after := timeIndex[trade.timestamp := Slot(readPos, |before|, capacity)];
    assert (before + [trade])[..|before|] == before;
    forall ts | ts in after
      ensures Newest(before + [trade], ts) == if ts == trade.timestamp then |before| else Newest(before, ts)
    {
    }
  }

  /** The whole effect of a store on a ring that is in step. */
  lemma StoreInStep(slots: seq<TradeEvent>, readPos: int, size: nat, timeIndex: map<int, int>, trade: TradeEvent)
    requires 0 <= readPos < |slots| && size < |slots|
    requires IndexSound(timeIndex, Queue(slots, readPos, size), readPos, |slots|)
    ensures var w := Slot(readPos, size, |slots|);
            && (size + 1 < |slots| ==>
                  && Slot(w, 1, |slots|) == Slot(readPos, size + 1, |slots|) != readPos
                  && Queue(slots[w := trade], readPos, size + 1) == Queue(slots, readPos, size) + [trade]
                  && IndexSound(timeIndex[trade.timestamp := w], Queue(slots, readPos, size) + [trade], readPos, |slots|))
            && (size + 1 == |slots| ==>
                  Slot(w, 1, |slots|) == readPos && Queue(slots[w := trade], readPos, size) == Queue(slots, readPos, size))
  {
    QueueUntouched(slots, readPos, size, trade);
    if size + 1 < |slots| {
      QueueAppend(slots, readPos, size, trade);
      StoredIsAppended(Queue(slots, readPos, size), trade, timeIndex, readPos, |slots|);
    }
  }
}
