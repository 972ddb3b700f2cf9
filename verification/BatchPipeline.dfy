/** The batching pipeline on the heap: the collector refills one backing array, and what it hands to the
    workers are copies. Every call is one step of the transition system, so a sent batch never changes. */
module BatchPipelines {
  import opened Pipeline

  class BatchPipeline<T(0)> {
    const c: Config
    /** The storage of the collector's batch, reused after every flush, and how much of it is in use. */
    const backing: array<T>
    var count: nat
    var tradeChannel: seq<T>
    var batchChannel: seq<array<T>>
    /** The slice each worker is processing. */
    var hands: seq<array?<T>>
    var stopped: seq<bool>
    var collecting: bool
    var cancelled: bool
    var totalTrades: nat
    var droppedTrades: nat
    ghost var steps: seq<Step<T>>

    ghost function Slices(): set<object?>
      reads this
    {
      (set i | 0 <= i < |batchChannel| :: batchChannel[i]) + (set w | 0 <= w < |hands| :: hands[w])
    }

    /** The transition system's state after the same steps. */
    ghost function Abstract(): State<T>
      reads this
    {
      Run(c, steps)
    }

    /** A slice apart from the backing array that holds the batch as it was sent. */
    ghost predicate Holds(slice: array<T>, batch: seq<T>)
      reads slice
    {
      slice != backing && slice[..] == batch
    }

    ghost predicate HandHolds(hand: array?<T>, stopped: bool, worker: Worker<T>)
      reads hand
    {
      match worker
      case Idle => hand == null && !stopped
      case Busy(batch) => hand != null && !stopped && Holds(hand, batch)
      case Stopped => hand == null && stopped
    }

    ghost predicate QueueHolds(sent: seq<seq<T>>)
      reads this`batchChannel, batchChannel
    {
      |batchChannel| == |sent| && forall i :: 0 <= i < |batchChannel| ==> Holds(batchChannel[i], sent[i])
    }

    ghost predicate HandsHold(workers: seq<Worker<T>>)
      reads this`hands, this`stopped, hands
    {
      |hands| == |stopped| == |workers| && forall w :: 0 <= w < |hands| ==> HandHolds(hands[w], stopped[w], workers[w])
    }

    ghost predicate Valid()
      reads this, backing, Slices()
    {
      var s := Abstract();
      && backing.Length == Limit(c) && count <= backing.Length && backing[..count] == s.batch
      && tradeChannel == s.tradeChannel
      && QueueHolds(s.batchChannel) && HandsHold(s.workers) && |hands| == c.workerCount
      && collecting == s.collecting && cancelled == s.cancelled
      && totalTrades == s.totalTrades && droppedTrades == s.droppedTrades
    }

    constructor (c: Config)
      ensures Valid() && fresh(backing) && this.c == c && steps == []
    {
      this.c := c;
      backing, count := new T[Limit(c)], 0;
      tradeChannel, batchChannel := [], [];
      hands, stopped := seq(c.workerCount, _ => null), seq(c.workerCount, _ => false);
      collecting, cancelled, totalTrades, droppedTrades := true, false, 0, 0;
      steps := [];
    }

    /** A non-blocking send into the queue; a full one refuses. */
    method Add(trade: T) returns (accepted: bool)
      requires Valid()
      modifies this
      ensures Valid() && steps == old(steps) + [AddTrade(trade)]
      ensures accepted <==> |old(tradeChannel)| < c.bufferSize
    {
      hide Run, Limit;
      RunSnoc(c, steps, AddTrade(trade));
      steps := steps + [AddTrade(trade)];
      if |tradeChannel| < c.bufferSize {
        tradeChannel := tradeChannel + [trade];
        return true;
      }
      droppedTrades := droppedTrades + 1;
      return false;
    }

    /** Sends a copy of the batch in hand, or drops it when the channel is full; either way the backing
        array is used again from its start. */
    method Flush(ghost s: State<T>)
      requires backing.Length >= count && backing[..count] == s.batch
      requires QueueHolds(s.batchChannel)
      modifies this`count, this`batchChannel, this`droppedTrades
      ensures count == 0 && FlushBatch(c, s).batch == []
      ensures QueueHolds(FlushBatch(c, s).batchChannel)
      ensures forall i :: 0 <= i < |batchChannel| ==> batchChannel[i] in old(batchChannel) || fresh(batchChannel[i])
      ensures droppedTrades - old(droppedTrades) == FlushBatch(c, s).droppedTrades - s.droppedTrades
    {
      if count > 0 {
        if |batchChannel| < c.workerCount * 2 {
          var slice := new T[count](i requires 0 <= i < count <= backing.Length reads this, backing => backing[i]);
          assert slice[..] == backing[..count];
          batchChannel := batchChannel + [slice];
        } else {
          droppedTrades := droppedTrades + count;
        }
        count := 0;
      }
    }

    /** The collector takes a trade and writes it behind the others; a full batch is flushed. */
    method ReceiveTrade()
      requires Valid()
      modifies this, backing
      ensures Valid() && steps == old(steps) + [Receive]
    {
      hide Run, FlushBatch, AddTradeStep, TakeStep, FinishStep;
      ghost var s := Abstract();
      BatchHasRoom(c, steps);
      RunSnoc(c, steps, Receive);
      steps := steps + [Receive];
      if collecting && tradeChannel != [] {
        ghost var received := s.(tradeChannel := s.tradeChannel[1..], batch := s.batch + [s.tradeChannel[0]]);
        var trade := tradeChannel[0];
        tradeChannel := tradeChannel[1..];
        backing[count] := trade;
        count := count + 1;
        assert backing[..count] == received.batch;
        if count >= c.batchSize {
          FlushLeavesTheRest(c, received);
          Flush(received);
        }
      }
    }

    method TickFlush()
      requires Valid()
      modifies this
      ensures Valid() && steps == old(steps) + [Tick]
    {
      hide Run, Limit;
      ghost var s := Abstract();
      RunSnoc(c, steps, Tick);
      steps := steps + [Tick];
      if collecting {
        Flush(s);
      }
    }

    method CancelAll()
      requires Valid()
      modifies this
      ensures Valid() && steps == old(steps) + [Cancel]
    {
      hide Run, Limit;
      RunSnoc(c, steps, Cancel);
      steps := steps + [Cancel];
      cancelled := true;
    }

    method StopCollector()
      requires Valid()
      modifies this
      ensures Valid() && steps == old(steps) + [CollectorStop]
    {
      hide Run, Limit;
      ghost var s := Abstract();
      RunSnoc(c, steps, CollectorStop);
      steps := steps + [CollectorStop];
      if collecting && cancelled {
        Flush(s);
        collecting := false;
      }
    }

    /** A worker takes the slice at the head of the channel, not a copy of it. */
    method TakeBatch(w: nat)
      requires Valid()
      modifies this
      ensures Valid() && steps == old(steps) + [Take(w)]
    {
      hide Run, Limit;
      RunSnoc(c, steps, Take(w));
      steps := steps + [Take(w)];
      if w < |hands| && hands[w] == null && !stopped[w] && batchChannel != [] {
        hands, batchChannel := hands[w := batchChannel[0]], batchChannel[1..];
      }
    }

    /** The worker is done with its slice; what it inserted is the batch the collector sent. */
    method FinishBatch(w: nat, ok: bool) returns (inserted: seq<T>)
      requires Valid()
      modifies this
      ensures Valid() && steps == old(steps) + [Finish(w, ok)]
      ensures ok && w < |old(hands)| && old(hands)[w] != null ==>
        Abstract().log.inserted == old(Abstract()).log.inserted + [inserted] && inserted in Abstract().log.taken
    {
      hide QueueHolds, Run, Limit, FlushBatch, AddTradeStep, TakeStep, ReceiveStep;
      RunSnoc(c, steps, Finish(w, ok));
      TakenKeepsInserted(c, steps + [Finish(w, ok)]);
      steps := steps + [Finish(w, ok)];
      inserted := [];
      if w < |hands| {
        var slice := hands[w];
        if slice != null {
          inserted := slice[..];
          hands := hands[w := null];
          if ok {
            totalTrades := totalTrades + |inserted|;
          } else {
            droppedTrades := droppedTrades + |inserted|;
          }
        }
      }
    }

    method StopWorker(w: nat)
      requires Valid()
      modifies this
      ensures Valid() && steps == old(steps) + [WorkerStop(w)]
    {
      hide Run, Limit;
      RunSnoc(c, steps, WorkerStop(w));
      steps := steps + [WorkerStop(w)];
      if cancelled && w < |hands| && hands[w] == null && !stopped[w] {
        stopped := stopped[w := true];
      }
    }
  }

  lemma FlushLeavesTheRest<T>(c: Config, s: State<T>)
    ensures var after := FlushBatch(c, s);
            && after.tradeChannel == s.tradeChannel && after.workers == s.workers
            && after.collecting == s.collecting && after.cancelled == s.cancelled && after.totalTrades == s.totalTrades
  {
  }

  lemma BatchHasRoom<T>(c: Config, steps: seq<Step<T>>)
    ensures |Run(c, steps).batch| < Limit(c)
  {
    EveryRunIsSound(c, steps);
  }

  /** Whatever was stored had been taken from the channel. */
  lemma TakenKeepsInserted<T>(c: Config, steps: seq<Step<T>>)
    ensures forall b :: b in Run(c, steps).log.inserted ==> b in Run(c, steps).log.taken
  {
    var log := Run(c, steps).log;
    EveryRunIsSound(c, steps);
    hide Run, InFlight, Volume;
    forall b | b in log.inserted ensures b in log.taken {
      assert b in multiset(log.inserted);
      assert b in multiset(log.taken);
    }
  }
}
