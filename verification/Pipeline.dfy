/** The batching pipeline: producers, one collector and several workers over two bounded channels. */
module Pipeline {
  import Trades

  datatype Config = Config(bufferSize: nat, batchSize: nat, workerCount: nat)

  datatype Worker<T> = Idle | Busy(batch: seq<T>) | Stopped

  /** A batch the collector let go of: handed to the workers, or dropped because their channel was full. */
  datatype Flush<T> = Sent(batch: seq<T>) | Overflowed(batch: seq<T>)

  /** What happened so far; the code keeps none of it. */
  datatype Log<T> = Log(accepted: seq<T>, refused: seq<T>, flushed: seq<Flush<T>>,
                        taken: seq<seq<T>>, inserted: seq<seq<T>>, failed: seq<seq<T>>)

  datatype State<T> = State(tradeChannel: seq<T>, batch: seq<T>, batchChannel: seq<seq<T>>,
                            workers: seq<Worker<T>>, collecting: bool, cancelled: bool,
                            totalTrades: nat, droppedTrades: nat, batchesProcessed: nat, failedBatches: nat,
                            log: Log<T>)

  /** One atomic step of some goroutine. A step that is not enabled changes nothing. */
  datatype Step<T> =
    | AddTrade(trade: T)
    | Receive
    | Tick
    | Cancel
    | CollectorStop
    | Take(worker: nat)
    | Finish(worker: nat, ok: bool)
    | WorkerStop(worker: nat)

  function Start<T>(c: Config): State<T> {
    State([], [], [], seq(c.workerCount, _ => Idle), true, false, 0, 0, 0, 0, Log([], [], [], [], [], []))
  }

  /** Non-blocking send of the batch in hand; a full channel drops it. */
  function FlushBatch<T>(c: Config, s: State<T>): State<T> {
    if s.batch == [] then s
    else if |s.batchChannel| < c.workerCount * 2 then
      s.(batchChannel := s.batchChannel + [s.batch], batch := [],
         log := s.log.(flushed := s.log.flushed + [Sent(s.batch)]))
    else
      s.(droppedTrades := s.droppedTrades + |s.batch|, batch := [],
         log := s.log.(flushed := s.log.flushed + [Overflowed(s.batch)]))
  }

  function AddTradeStep<T>(c: Config, s: State<T>, t: T): State<T> {
    if |s.tradeChannel| < c.bufferSize then
      s.(tradeChannel := s.tradeChannel + [t], log := s.log.(accepted := s.log.accepted + [t]))
    else
      s.(droppedTrades := s.droppedTrades + 1, log := s.log.(refused := s.log.refused + [t]))
  }

  function ReceiveStep<T>(c: Config, s: State<T>): State<T> {
    if s.collecting && s.tradeChannel != [] then
      var received := s.(tradeChannel := s.tradeChannel[1..], batch := s.batch + [s.tradeChannel[0]]);
      if |received.batch| >= c.batchSize then FlushBatch(c, received) else received
    else s
  }

  function TakeStep<T>(s: State<T>, w: nat): State<T> {
    if w < |s.workers| && s.workers[w].Idle? && s.batchChannel != [] then
      s.(workers := s.workers[w := Busy(s.batchChannel[0])], batchChannel := s.batchChannel[1..],
         log := s.log.(taken := s.log.taken + [s.batchChannel[0]]))
    else s
  }

  function FinishStep<T>(s: State<T>, w: nat, ok: bool): State<T> {
    if w < |s.workers| && s.workers[w].Busy? then
      var batch := s.workers[w].batch;
      var free := s.(workers := s.workers[w := Idle]);
      if ok then
        free.(batchesProcessed := s.batchesProcessed + 1, totalTrades := s.totalTrades + |batch|,
              log := s.log.(inserted := s.log.inserted + [batch]))
      else
        free.(failedBatches := s.failedBatches + 1, droppedTrades := s.droppedTrades + |batch|,
              log := s.log.(failed := s.log.failed + [batch]))
    else s
  }

  function Apply<T>(c: Config, s: State<T>, step: Step<T>): State<T> {
    match step
    case AddTrade(t) => AddTradeStep(c, s, t)
    case Receive => ReceiveStep(c, s)
    case Tick => if s.collecting then FlushBatch(c, s) else s
    case Cancel => s.(cancelled := true)
    case CollectorStop => if s.collecting && s.cancelled then FlushBatch(c, s).(collecting := false) else s
    case Take(w) => TakeStep(s, w)
    case Finish(w, ok) => FinishStep(s, w, ok)
    case WorkerStop(w) =>
      if s.cancelled && w < |s.workers| && s.workers[w].Idle? then s.(workers := s.workers[w := Stopped]) else s
  }

  /** Any interleaving of producers, collector, ticks, workers and cancellation. */
  function Run<T>(c: Config, steps: seq<Step<T>>): State<T> {
    if steps == [] then Start(c) else Apply(c, Run(c, steps[..|steps| - 1]), steps[|steps| - 1])
  }

  function AllTrades<T>(flushed: seq<Flush<T>>): seq<T> {
    if flushed == [] then [] else AllTrades(flushed[..|flushed| - 1]) + flushed[|flushed| - 1].batch
  }

  function SentBatches<T>(flushed: seq<Flush<T>>): seq<seq<T>> {
    if flushed == [] then []
    else SentBatches(flushed[..|flushed| - 1])
         + if flushed[|flushed| - 1].Sent? then [flushed[|flushed| - 1].batch] else []
  }

  function OverflowVolume<T>(flushed: seq<Flush<T>>): nat {
    if flushed == [] then 0
    else OverflowVolume(flushed[..|flushed| - 1])
         + if flushed[|flushed| - 1].Sent? then 0 else |flushed[|flushed| - 1].batch|
  }

  function Volume<T>(batches: seq<seq<T>>): nat {
    if batches == [] then 0 else Volume(batches[..|batches| - 1]) + |batches[|batches| - 1]|
  }

  function InHand<T>(w: Worker<T>): seq<seq<T>> {
    if w.Busy? then [w.batch] else []
  }

  /** The batches the workers hold, worker by worker. */
  function InFlight<T>(workers: seq<Worker<T>>): seq<seq<T>> {
    if workers == [] then [] else InFlight(workers[..|workers| - 1]) + InHand(workers[|workers| - 1])
  }

  function Limit(c: Config): nat {
    if c.batchSize < 1 then 1 else c.batchSize
  }

  predicate BatchShape<T>(c: Config, b: seq<T>) {
    1 <= |b| <= Limit(c)
  }

  ghost predicate AllShaped<T>(c: Config, flushed: seq<Flush<T>>) {
    forall i :: 0 <= i < |flushed| ==> BatchShape(c, flushed[i].batch)
  }

  /** Batches are never empty and never over the limit; both channels stay within their capacity. */
  ghost predicate Bounded<T>(c: Config, s: State<T>) {
    && |s.workers| == c.workerCount
    && |s.tradeChannel| <= c.bufferSize && |s.batchChannel| <= c.workerCount * 2
    && |s.batch| < Limit(c)
    && (!s.collecting ==> s.batch == [])
    && AllShaped(c, s.log.flushed)
  }

  ghost predicate Ordered<T>(flushed: seq<Flush<T>>, batch: seq<T>, queue: seq<T>, accepted: seq<T>) {
    AllTrades(flushed) + batch + queue == accepted
  }

  /** Batches sent or dropped, then the batch in hand, then the queue: the accepted trades in order. */
  ghost predicate InOrder<T>(s: State<T>) {
    Ordered(s.log.flushed, s.batch, s.tradeChannel, s.log.accepted)
  }

  ghost predicate Handed<T>(flushed: seq<Flush<T>>, taken: seq<seq<T>>, waiting: seq<seq<T>>) {
    SentBatches(flushed) == taken + waiting
  }

  /** The workers take batches in the order they were sent, unchanged. */
  ghost predicate Fifo<T>(s: State<T>) {
    Handed(s.log.flushed, s.log.taken, s.batchChannel)
  }

  ghost predicate Balance<T>(taken: seq<seq<T>>, held: seq<seq<T>>, inserted: seq<seq<T>>, failed: seq<seq<T>>) {
    && multiset(taken) == multiset(held) + multiset(inserted) + multiset(failed)
    && Volume(taken) == Volume(held) + Volume(inserted) + Volume(failed)
  }

  /** Every batch taken is in exactly one worker's hands, inserted or failed. */
  ghost predicate Settled<T>(s: State<T>) {
    Balance(s.log.taken, InFlight(s.workers), s.log.inserted, s.log.failed)
  }

  predicate Counted<T>(s: State<T>) {
    && s.totalTrades == Volume(s.log.inserted)
    && s.droppedTrades == |s.log.refused| + OverflowVolume(s.log.flushed) + Volume(s.log.failed)
    && s.batchesProcessed == |s.log.inserted| && s.failedBatches == |s.log.failed|
  }

  ghost predicate Inv<T>(c: Config, s: State<T>) {
    Bounded(c, s) && InOrder(s) && Fifo(s) && Settled(s) && Counted(s)
  }

  lemma {:induction false} VolumeConcat<T>(a: seq<seq<T>>, b: seq<seq<T>>)
    ensures Volume(a + b) == Volume(a) + Volume(b)
  {
    if b == [] {
      assert a + b == a;
    } else {
      assert (a + b)[..|a + b| - 1] == a + b[..|b| - 1];
      VolumeConcat(a, b[..|b| - 1]);
    }
  }

  lemma VolumeSnoc<T>(a: seq<seq<T>>, b: seq<T>)
    ensures Volume(a + [b]) == Volume(a) + |b|
  {
    assert (a + [b])[..|a|] == a;
  }

  lemma {:induction false} InFlightConcat<T>(a: seq<Worker<T>>, b: seq<Worker<T>>)
    ensures InFlight(a + b) == InFlight(a) + InFlight(b)
  {
    if b == [] {
      assert a + b == a;
    } else {
      assert (a + b)[..|a + b| - 1] == a + b[..|b| - 1];
      InFlightConcat(a, b[..|b| - 1]);
    }
  }

  lemma InFlightSnoc<T>(workers: seq<Worker<T>>, w: Worker<T>)
    ensures InFlight(workers + [w]) == InFlight(workers) + InHand(w)
  {
    assert (workers + [w])[..|workers|] == workers;
  }

  lemma SplitAt<T>(s: seq<T>, w: nat)
    requires w < |s|
    ensures s == (s[..w] + [s[w]]) + s[w + 1..]
  {}

  lemma InFlightAt<T>(workers: seq<Worker<T>>, w: nat)
    requires w < |workers|
    ensures InFlight(workers) == (InFlight(workers[..w]) + InHand(workers[w])) + InFlight(workers[w + 1..])
  {
    hide InFlight, InHand;
    var left, here, right := workers[..w], workers[w], workers[w + 1..];
    SplitAt(workers, w);
    InFlightConcat(left + [here], right);
    InFlightSnoc(left, here);
  }

  /** Same batches and same number of trades, so far as counting goes. */
  ghost predicate SameLoad<T>(a: seq<seq<T>>, b: seq<seq<T>>) {
    multiset(a) == multiset(b) && Volume(a) == Volume(b)
  }

  lemma SwapMiddle<T>(left: seq<seq<T>>, x: seq<seq<T>>, right: seq<seq<T>>, y: seq<seq<T>>)
    ensures SameLoad((left + y) + right + x, (left + x) + right + y)
  {
    hide Volume;
    VolumeConcat(left, x);
    VolumeConcat(left, y);
    VolumeConcat(left + x, right);
    VolumeConcat(left + y, right);
    VolumeConcat((left + x) + right, y);
    VolumeConcat((left + y) + right, x);
  }

  /** Giving worker w a new job changes only its own part of what is in flight. */
  lemma InFlightUpdate<T>(workers: seq<Worker<T>>, w: nat, job: Worker<T>)
    requires w < |workers|
    ensures SameLoad(InFlight(workers[w := job]) + InHand(workers[w]), InFlight(workers) + InHand(job))
  {
    hide InFlight, InHand, SameLoad;
    InFlightAt(workers, w);
    InFlightAt(workers[w := job], w);
    assert workers[w := job][..w] == workers[..w] && workers[w := job][w + 1..] == workers[w + 1..];
    SwapMiddle(InFlight(workers[..w]), InHand(workers[w]), InFlight(workers[w + 1..]), InHand(job));
  }

  lemma BalanceTake<T>(taken: seq<seq<T>>, held: seq<seq<T>>, inserted: seq<seq<T>>, failed: seq<seq<T>>,
                       b: seq<T>, after: seq<seq<T>>)
    requires Balance(taken, held, inserted, failed) && SameLoad(after, held + [b])
    ensures Balance(taken + [b], after, inserted, failed)
  {
    VolumeSnoc(taken, b);
    VolumeSnoc(held, b);
    hide Volume;
  }

  lemma BalanceFinish<T>(taken: seq<seq<T>>, held: seq<seq<T>>, inserted: seq<seq<T>>, failed: seq<seq<T>>,
                         b: seq<T>, after: seq<seq<T>>)
    requires Balance(taken, held, inserted, failed) && SameLoad(after + [b], held)
    ensures Balance(taken, after, inserted + [b], failed)
    ensures Balance(taken, after, inserted, failed + [b])
  {
    VolumeSnoc(inserted, b);
    VolumeSnoc(failed, b);
    VolumeSnoc(after, b);
    hide Volume;
  }

  lemma {:induction false} NothingInFlightAtStart<T>(workers: seq<Worker<T>>)
    requires forall i :: 0 <= i < |workers| ==> workers[i].Idle?
    ensures InFlight(workers) == []
  {
    if workers != [] {
      NothingInFlightAtStart(workers[..|workers| - 1]);
    }
  }

  lemma StartIsSound<T>(c: Config)
    ensures Inv<T>(c, Start(c))
  {
    NothingInFlightAtStart(Start<T>(c).workers);
  }

  lemma FlushedSnoc<T>(flushed: seq<Flush<T>>, f: Flush<T>)
    ensures AllTrades(flushed + [f]) == AllTrades(flushed) + f.batch
    ensures SentBatches(flushed + [f]) == SentBatches(flushed) + if f.Sent? then [f.batch] else []
    ensures OverflowVolume(flushed + [f]) == OverflowVolume(flushed) + if f.Sent? then 0 else |f.batch|
  {
    assert (flushed + [f])[..|flushed|] == flushed;
  }

  /** The same state before flushing, with the batch allowed to be full. */
  ghost predicate Full<T>(c: Config, s: State<T>) {
    && |s.workers| == c.workerCount
    && |s.tradeChannel| <= c.bufferSize && |s.batchChannel| <= c.workerCount * 2
    && |s.batch| <= Limit(c)
    && AllShaped(c, s.log.flushed)
    && InOrder(s) && Fifo(s) && Settled(s) && Counted(s)
  }

  lemma FlushKeeps<T>(c: Config, s: State<T>)
    requires Full(c, s)
    ensures Inv(c, FlushBatch(c, s)) && FlushBatch(c, s).batch == []
  {
    hide AllTrades, SentBatches, OverflowVolume, Volume, InFlight;
    FlushedSnoc(s.log.flushed, Sent(s.batch));
    FlushedSnoc(s.log.flushed, Overflowed(s.batch));
  }

  lemma ReceivedIsFull<T>(c: Config, s: State<T>)
    requires Inv(c, s) && s.tradeChannel != []
    ensures Full(c, s.(tradeChannel := s.tradeChannel[1..], batch := s.batch + [s.tradeChannel[0]]))
  {
    hide AllTrades, SentBatches, OverflowVolume, Volume, InFlight, Balance, AllShaped, Handed;
    var all := AllTrades(s.log.flushed);
    assert all + (s.batch + [s.tradeChannel[0]]) + s.tradeChannel[1..] == all + s.batch + s.tradeChannel;
  }

  lemma ReceiveKeeps<T>(c: Config, s: State<T>)
    requires Inv(c, s)
    ensures Inv(c, ReceiveStep(c, s))
  {
    if s.collecting && s.tradeChannel != [] {
      ReceivedIsFull(c, s);
      FlushKeeps(c, s.(tradeChannel := s.tradeChannel[1..], batch := s.batch + [s.tradeChannel[0]]));
      hide InOrder, Fifo, Settled, Counted, AllShaped, FlushBatch;
    }
  }

  lemma AddTradeKeeps<T>(c: Config, s: State<T>, t: T)
    requires Inv(c, s)
    ensures Inv(c, AddTradeStep(c, s, t))
  {
    hide AllTrades, OverflowVolume, Volume, InFlight, Balance, AllShaped, Handed;
  }

  lemma TakeSettles<T>(s: State<T>, w: nat)
    requires Settled(s) && w < |s.workers| && s.workers[w].Idle? && s.batchChannel != []
    ensures Settled(TakeStep(s, w))
  {
    hide InFlight, Balance;
    var b := s.batchChannel[0];
    InFlightUpdate(s.workers, w, Busy(b));
    var after := InFlight(s.workers[w := Busy(b)]);
    assert after + [] == after;
    BalanceTake(s.log.taken, InFlight(s.workers), s.log.inserted, s.log.failed, b, after);
  }

  lemma TakeIsFifo<T>(s: State<T>, w: nat)
    requires Fifo(s) && w < |s.workers| && s.workers[w].Idle? && s.batchChannel != []
    ensures Fifo(TakeStep(s, w))
  {
    hide SentBatches;
    assert s.log.taken + s.batchChannel == (s.log.taken + [s.batchChannel[0]]) + s.batchChannel[1..];
  }

  lemma TakeIsBounded<T>(c: Config, s: State<T>, w: nat)
    requires Bounded(c, s)
    ensures Bounded(c, TakeStep(s, w))
  {
    hide AllShaped, Limit;
  }

  lemma TakeLeavesTheRest<T>(s: State<T>, w: nat)
    requires InOrder(s) && Counted(s)
    ensures InOrder(TakeStep(s, w)) && Counted(TakeStep(s, w))
  {
    hide Ordered, OverflowVolume, Volume;
  }

  lemma TakeKeeps<T>(c: Config, s: State<T>, w: nat)
    requires Inv(c, s)
    ensures Inv(c, TakeStep(s, w))
  {
    if w < |s.workers| && s.workers[w].Idle? && s.batchChannel != [] {
      TakeSettles(s, w);
      TakeIsFifo(s, w);
      TakeIsBounded(c, s, w);
      TakeLeavesTheRest(s, w);
      hide InOrder, Counted, Settled, Fifo, Bounded, TakeStep;
    }
  }

  lemma FinishSettles<T>(s: State<T>, w: nat, ok: bool)
    requires Settled(s) && w < |s.workers| && s.workers[w].Busy?
    ensures Settled(FinishStep(s, w, ok))
  {
    hide InFlight, Balance;
    var b := s.workers[w].batch;
    InFlightUpdate(s.workers, w, Idle);
    assert InFlight(s.workers) + [] == InFlight(s.workers);
    BalanceFinish(s.log.taken, InFlight(s.workers), s.log.inserted, s.log.failed, b, InFlight(s.workers[w := Idle]));
  }

  lemma FinishIsCounted<T>(s: State<T>, w: nat, ok: bool)
    requires Counted(s) && w < |s.workers| && s.workers[w].Busy?
    ensures Counted(FinishStep(s, w, ok))
  {
    VolumeSnoc(s.log.inserted, s.workers[w].batch);
    VolumeSnoc(s.log.failed, s.workers[w].batch);
    hide OverflowVolume, Volume;
  }

  lemma FinishIsBounded<T>(c: Config, s: State<T>, w: nat, ok: bool)
    requires Bounded(c, s)
    ensures Bounded(c, FinishStep(s, w, ok))
  {
    hide AllShaped, Limit;
  }

  lemma FinishKeeps<T>(c: Config, s: State<T>, w: nat, ok: bool)
    requires Inv(c, s)
    ensures Inv(c, FinishStep(s, w, ok))
  {
    if w < |s.workers| && s.workers[w].Busy? {
      FinishSettles(s, w, ok);
      FinishIsCounted(s, w, ok);
      FinishIsBounded(c, s, w, ok);
      hide Ordered, Handed, Settled, Counted, Bounded;
    }
  }

  lemma WorkerStopKeeps<T>(c: Config, s: State<T>, w: nat)
    requires Inv(c, s) && w < |s.workers| && s.workers[w].Idle?
    ensures Inv(c, s.(workers := s.workers[w := Stopped]))
  {
    hide Ordered, Handed, OverflowVolume, InFlight, Volume, AllShaped;
    InFlightUpdate(s.workers, w, Stopped);
    var after := InFlight(s.workers[w := Stopped]);
    assert after + [] == after && InFlight(s.workers) + [] == InFlight(s.workers);
  }

  lemma CancelKeeps<T>(c: Config, s: State<T>)
    requires Inv(c, s)
    ensures Inv(c, s.(cancelled := true))
  {
    hide Ordered, Handed, OverflowVolume, InFlight, Volume, Balance, AllShaped;
  }

  lemma CollectorStopKeeps<T>(c: Config, s: State<T>)
    requires Inv(c, s) && s.batch == []
    ensures Inv(c, s.(collecting := false))
  {
    hide Ordered, Handed, OverflowVolume, InFlight, Volume, Balance, AllShaped;
  }

  lemma StepKeeps<T>(c: Config, s: State<T>, step: Step<T>)
    requires Inv(c, s)
    ensures Inv(c, Apply(c, s, step))
  {
    hide InOrder, Fifo, Settled, Counted, AllShaped, FlushBatch, AddTradeStep, ReceiveStep, TakeStep, FinishStep;
    match step
    case AddTrade(t) => AddTradeKeeps(c, s, t);
    case Receive => ReceiveKeeps(c, s);
    case Tick => FlushKeeps(c, s);
    case Cancel => CancelKeeps(c, s);
    case CollectorStop =>
      FlushKeeps(c, s);
      CollectorStopKeeps(c, FlushBatch(c, s));
    case Take(w) => TakeKeeps(c, s, w);
    case Finish(w, ok) => FinishKeeps(c, s, w, ok);
    case WorkerStop(w) =>
      if s.cancelled && w < |s.workers| && s.workers[w].Idle? {
        WorkerStopKeeps(c, s, w);
      }
  }

  /** Safety over whole runs: order, shape, hand-over and counters hold in every interleaving. */
  lemma {:induction false} EveryRunIsSound<T>(c: Config, steps: seq<Step<T>>)
    ensures Inv(c, Run(c, steps))
  {
    if steps == [] {
      StartIsSound<T>(c);
    } else {
      EveryRunIsSound(c, steps[..|steps| - 1]);
      StepKeeps(c, Run(c, steps[..|steps| - 1]), steps[|steps| - 1]);
    }
  }

  lemma {:induction false} FlushedVolume<T>(flushed: seq<Flush<T>>)
    ensures |AllTrades(flushed)| == Volume(SentBatches(flushed)) + OverflowVolume(flushed)
  {
    if flushed != [] {
      var n := |flushed| - 1;
      FlushedVolume(flushed[..n]);
      assert SentBatches(flushed[..n]) + [] == SentBatches(flushed[..n]);
      VolumeSnoc(SentBatches(flushed[..n]), flushed[n].batch);
    }
  }

  /** How many trades producers tried to add. */
  function Attempts<T>(steps: seq<Step<T>>): nat {
    if steps == [] then 0
    else Attempts(steps[..|steps| - 1]) + if steps[|steps| - 1].AddTrade? then 1 else 0
  }

  lemma StepIsLogged<T>(c: Config, s: State<T>, step: Step<T>)
    ensures |Apply(c, s, step).log.accepted| + |Apply(c, s, step).log.refused|
         == |s.log.accepted| + |s.log.refused| + if step.AddTrade? then 1 else 0
  {}

  lemma {:induction false} AttemptsAreLogged<T>(c: Config, steps: seq<Step<T>>)
    ensures |Run(c, steps).log.accepted| + |Run(c, steps).log.refused| == Attempts(steps)
  {
    if steps != [] {
      hide Apply;
      var n := |steps| - 1;
      AttemptsAreLogged(c, steps[..n]);
      StepIsLogged(c, Run(c, steps[..n]), steps[n]);
    }
  }

  /** Attempts = queued + in the collector's batch + in the batch channel + in flight + stored + dropped. */
  lemma EveryRunConserves<T>(c: Config, steps: seq<Step<T>>)
    ensures var s := Run(c, steps);
            Attempts(steps) == |s.tradeChannel| + |s.batch| + Volume(s.batchChannel)
                               + Volume(InFlight(s.workers)) + s.totalTrades + s.droppedTrades
  {
    var s := Run(c, steps);
    EveryRunIsSound(c, steps);
    AttemptsAreLogged(c, steps);
    hide Run, Apply;
    FlushedVolume(s.log.flushed);
    VolumeConcat(s.log.taken, s.batchChannel);
  }

  lemma {:induction false} VolumeBound<T>(c: Config, batches: seq<seq<T>>)
    requires forall i :: 0 <= i < |batches| ==> BatchShape(c, batches[i])
    ensures Volume(batches) <= |batches| * Limit(c)
  {
    if batches != [] {
      VolumeBound(c, batches[..|batches| - 1]);
    }
  }

  lemma {:induction false} SentShape<T>(c: Config, flushed: seq<Flush<T>>)
    requires AllShaped(c, flushed)
    ensures forall i :: 0 <= i < |SentBatches(flushed)| ==> BatchShape(c, SentBatches(flushed)[i])
  {
    if flushed != [] {
      var n := |flushed| - 1;
      assert BatchShape(c, flushed[n].batch);
      forall i | 0 <= i < n ensures BatchShape(c, flushed[..n][i].batch) {
        assert BatchShape(c, flushed[i].batch);
      }
      SentShape(c, flushed[..n]);
      var before := SentBatches(flushed[..n]);
      forall i | 0 <= i < |SentBatches(flushed)| ensures BatchShape(c, SentBatches(flushed)[i]) {
        if i < |before| {
          assert SentBatches(flushed)[i] == before[i];
        }
      }
    }
  }

  lemma {:induction false} NoWorkerBusy<T>(workers: seq<Worker<T>>)
    requires forall i :: 0 <= i < |workers| ==> !workers[i].Busy?
    ensures InFlight(workers) == []
  {
    if workers != [] {
      NoWorkerBusy(workers[..|workers| - 1]);
    }
  }

  predicate ShutDown<T>(s: State<T>) {
    !s.collecting && forall i :: 0 <= i < |s.workers| ==> s.workers[i].Stopped?
  }

  lemma ScaleBound(n: nat, m: nat, k: nat)
    requires n <= m
    ensures n * k <= m * k
  {}

  /** After shutdown the trades neither stored nor counted as dropped are those still in the two channels. */
  lemma ShutdownLoss<T>(c: Config, steps: seq<Step<T>>)
    requires ShutDown(Run(c, steps))
    ensures var s := Run(c, steps);
            && Attempts(steps) - s.totalTrades - s.droppedTrades == |s.tradeChannel| + Volume(s.batchChannel)
            && |s.tradeChannel| + Volume(s.batchChannel) <= c.bufferSize + c.workerCount * 2 * Limit(c)
  {
    var s := Run(c, steps);
    EveryRunConserves(c, steps);
    EveryRunIsSound(c, steps);
    hide Run;
    NoWorkerBusy(s.workers);
    SentShape(c, s.log.flushed);
    forall i | 0 <= i < |s.batchChannel| ensures BatchShape(c, s.batchChannel[i]) {
      assert SentBatches(s.log.flushed)[|s.log.taken| + i] == s.batchChannel[i];
    }
    VolumeBound(c, s.batchChannel);
    ScaleBound(|s.batchChannel|, c.workerCount * 2, Limit(c));
  }

  lemma {:induction false} NoOverflow<T>(c: Config, flushed: seq<Flush<T>>)
    requires AllShaped(c, flushed)
    requires OverflowVolume(flushed) == 0
    ensures Trades.Concat(SentBatches(flushed)) == AllTrades(flushed)
  {
    if flushed != [] {
      var n := |flushed| - 1;
      assert BatchShape(c, flushed[n].batch);
      NoOverflow(c, flushed[..n]);
      assert SentBatches(flushed)[..|SentBatches(flushed)| - 1] == SentBatches(flushed[..n]);
    }
  }

  predicate Drained<T>(s: State<T>) {
    && s.tradeChannel == [] && s.batch == [] && s.batchChannel == []
    && forall i :: 0 <= i < |s.workers| ==> !s.workers[i].Busy?
  }

  lemma {:induction false} NoVolumeNoBatch<T>(c: Config, batches: seq<seq<T>>)
    requires Volume(batches) == 0 && forall i :: 0 <= i < |batches| ==> |batches[i]| >= 1
    ensures batches == []
  {}

  /** Once drained with a zero drop counter, every attempt was accepted, and the batches inserted are,
      up to the order in which workers finished, consecutive pieces of exactly that list. */
  lemma DrainedWithoutDrops<T>(c: Config, steps: seq<Step<T>>)
    requires Drained(Run(c, steps)) && Run(c, steps).droppedTrades == 0
    ensures var s := Run(c, steps);
            && s.log.refused == [] && s.totalTrades == Attempts(steps) == |s.log.accepted|
            && Trades.Concat(s.log.taken) == s.log.accepted
            && multiset(s.log.inserted) == multiset(s.log.taken)
  {
    var s := Run(c, steps);
    EveryRunConserves(c, steps);
    EveryRunIsSound(c, steps);
    AttemptsAreLogged(c, steps);
    hide Run;
    NoWorkerBusy(s.workers);
    NoOverflow(c, s.log.flushed);
    SentShape(c, s.log.flushed);
    assert SentBatches(s.log.flushed) == s.log.taken;
    FailedAreShaped(c, s);
    NoVolumeNoBatch(c, s.log.failed);
    assert AllTrades(s.log.flushed) + s.batch + s.tradeChannel == AllTrades(s.log.flushed);
  }

  lemma FailedAreShaped<T>(c: Config, s: State<T>)
    requires Inv(c, s)
    ensures forall i :: 0 <= i < |s.log.failed| ==> |s.log.failed[i]| >= 1
  {
    SentShape(c, s.log.flushed);
    hide SentBatches, InFlight, Volume;
    forall i | 0 <= i < |s.log.failed| ensures |s.log.failed[i]| >= 1 {
      var b := s.log.failed[i];
      assert b in multiset(s.log.failed);
      assert b in multiset(s.log.taken) && b in s.log.taken;
      var k :| 0 <= k < |s.log.taken| && s.log.taken[k] == b;
      assert SentBatches(s.log.flushed)[k] == b;
    }
  }

  // ----- when trades are lost, and that none need be -----

  /** The step makes the collector let go of a batch. */
  predicate Flushes<T>(c: Config, s: State<T>, step: Step<T>) {
    && s.collecting
    && match step
       case Receive => s.tradeChannel != [] && |s.batch| + 1 >= c.batchSize
       case Tick => |s.batch| > 0
       case CollectorStop => s.cancelled && |s.batch| > 0
       case _ => false
  }

  /** The step loses trades: a full queue, a full batch channel, or a batch that fails. */
  predicate Loses<T>(c: Config, s: State<T>, step: Step<T>) {
    || (step.AddTrade? && |s.tradeChannel| >= c.bufferSize)
    || (Flushes(c, s, step) && |s.batchChannel| >= c.workerCount * 2)
    || (step.Finish? && !step.ok && step.worker < |s.workers| && s.workers[step.worker].Busy?)
  }

  lemma HeldBatchesAreShaped<T>(c: Config, s: State<T>, w: nat)
    requires Inv(c, s) && w < |s.workers| && s.workers[w].Busy?
    ensures |s.workers[w].batch| >= 1
  {
    SentShape(c, s.log.flushed);
    InFlightAt(s.workers, w);
    hide SentBatches, InFlight, Volume, AllShaped;
    var b := s.workers[w].batch;
    assert b in InFlight(s.workers) && b in multiset(InFlight(s.workers));
    assert b in multiset(s.log.taken) && b in s.log.taken;
    var k :| 0 <= k < |s.log.taken| && s.log.taken[k] == b;
    assert SentBatches(s.log.flushed)[k] == b;
  }

  lemma RunSnoc<T>(c: Config, steps: seq<Step<T>>, step: Step<T>)
    ensures Run(c, steps + [step]) == Apply(c, Run(c, steps), step)
  {
    assert (steps + [step])[..|steps|] == steps;
  }

  lemma FlushDrops<T>(c: Config, s: State<T>)
    ensures FlushBatch(c, s).droppedTrades
         == s.droppedTrades + if s.batch != [] && |s.batchChannel| >= c.workerCount * 2 then |s.batch| else 0
  {}

  lemma ReceiveDrops<T>(c: Config, s: State<T>)
    ensures ReceiveStep(c, s).droppedTrades
         == s.droppedTrades + if Flushes(c, s, Receive) && |s.batchChannel| >= c.workerCount * 2 then |s.batch| + 1 else 0
  {
    if s.collecting && s.tradeChannel != [] {
      FlushDrops(c, s.(tradeChannel := s.tradeChannel[1..], batch := s.batch + [s.tradeChannel[0]]));
      hide FlushBatch;
    }
  }

  lemma StepLosesIff<T>(c: Config, s: State<T>, step: Step<T>)
    requires Inv(c, s)
    ensures Apply(c, s, step).droppedTrades >= s.droppedTrades
    ensures Apply(c, s, step).droppedTrades > s.droppedTrades <==> Loses(c, s, step)
  {
    hide Inv, FlushBatch, ReceiveStep;
    if step.Finish? && step.worker < |s.workers| && s.workers[step.worker].Busy? {
      HeldBatchesAreShaped(c, s, step.worker);
    }
    FlushDrops(c, s);
    ReceiveDrops(c, s);
  }

  predicate LosesAt<T>(c: Config, steps: seq<Step<T>>, i: nat)
    requires i < |steps|
  {
    Loses(c, Run(c, steps[..i]), steps[i])
  }

  lemma LosesAtPrefix<T>(c: Config, steps: seq<Step<T>>)
    requires steps != []
    ensures var n := |steps| - 1;
            && LosesAt(c, steps, n) == Loses(c, Run(c, steps[..n]), steps[n])
            && forall i: nat :: i < n ==> LosesAt(c, steps[..n], i) == LosesAt(c, steps, i)
  {
    hide Loses, Run;
    var n := |steps| - 1;
    forall i: nat | i < n ensures LosesAt(c, steps[..n], i) == LosesAt(c, steps, i) {
      assert steps[..n][..i] == steps[..i];
    }
  }

  predicate SomeLoss<T>(c: Config, steps: seq<Step<T>>) {
    exists i :: 0 <= i < |steps| && LosesAt(c, steps, i)
  }

  lemma SomeLossSnoc<T>(c: Config, steps: seq<Step<T>>)
    requires steps != []
    ensures var n := |steps| - 1;
            SomeLoss(c, steps) <==> SomeLoss(c, steps[..n]) || Loses(c, Run(c, steps[..n]), steps[n])
  {
    LosesAtPrefix(c, steps);
    hide LosesAt, Loses, Run;
    var n := |steps| - 1;
    if i :| 0 <= i < n && LosesAt(c, steps[..n], i) {
      assert LosesAt(c, steps, i);
    }
  }

  lemma NothingLostAtStart<T>(c: Config)
    ensures Run<T>(c, []).droppedTrades == 0 && !SomeLoss<T>(c, [])
  {}

  lemma RunLast<T>(c: Config, steps: seq<Step<T>>)
    requires steps != []
    ensures Run(c, steps) == Apply(c, Run(c, steps[..|steps| - 1]), steps[|steps| - 1])
  {}

  /** A run loses a trade exactly when some step of it met a full channel or a failing batch. */
  lemma {:induction false} DropsIff<T>(c: Config, steps: seq<Step<T>>)
    ensures Run(c, steps).droppedTrades > 0 <==> SomeLoss(c, steps)
  {
    hide *;
    if steps == [] {
      NothingLostAtStart<T>(c);
    } else {
      var before, last := steps[..|steps| - 1], steps[|steps| - 1];
      DropsIff(c, before);
      EveryRunIsSound(c, before);
      StepLosesIff(c, Run(c, before), last);
      RunLast(c, steps);
      SomeLossSnoc(c, steps);
    }
  }

  predicate Running<T>(s: State<T>) {
    s.collecting && forall i :: 0 <= i < |s.workers| ==> !s.workers[i].Stopped?
  }

  lemma StepKeepsRunning<T>(c: Config, s: State<T>, step: Step<T>)
    requires s.cancelled || Running(s)
    ensures Apply(c, s, step).cancelled || Running(Apply(c, s, step))
  {}

  /** Before cancellation nobody has stopped. */
  lemma {:induction false} UncancelledIsRunning<T>(c: Config, steps: seq<Step<T>>)
    ensures Run(c, steps).cancelled || Running(Run(c, steps))
  {
    if steps != [] {
      hide Apply, Running;
      UncancelledIsRunning(c, steps[..|steps| - 1]);
      StepKeepsRunning(c, Run(c, steps[..|steps| - 1]), steps[|steps| - 1]);
    }
  }

  /** What to do next to empty the pipeline. */
  function NextToDrain<T>(s: State<T>, busy: nat): Step<T> {
    if busy < |s.workers| && s.workers[busy].Busy? then Finish(busy, true)
    else if s.batchChannel != [] then Take(0)
    else if s.tradeChannel != [] then Receive
    else Tick
  }

  /** Who is busy, if anyone. */
  lemma SomeBusy<T>(s: State<T>) returns (w: nat)
    ensures w < |s.workers| ==> s.workers[w].Busy?
    ensures w >= |s.workers| ==> forall i :: 0 <= i < |s.workers| ==> !s.workers[i].Busy?
  {
    if i: nat :| i < |s.workers| && s.workers[i].Busy? {
      w := i;
    } else {
      w := |s.workers|;
    }
  }

  lemma FinishFreesOne<T>(workers: seq<Worker<T>>, w: nat)
    requires w < |workers| && workers[w].Busy?
    ensures |InFlight(workers[w := Idle])| + 1 == |InFlight(workers)|
  {
    InFlightUpdate(workers, w, Idle);
    var a, b := InFlight(workers[w := Idle]) + InHand(workers[w]), InFlight(workers) + InHand<T>(Idle);
    assert |multiset(a)| == |a| && |multiset(b)| == |b|;
  }

  ghost predicate Nearer<T>(t: State<T>, s: State<T>) {
    || |t.tradeChannel| < |s.tradeChannel|
    || (|t.tradeChannel| == |s.tradeChannel| && |t.batch| < |s.batch|)
    || (|t.tradeChannel| == |s.tradeChannel| && |t.batch| == |s.batch| && |t.batchChannel| < |s.batchChannel|)
    || (|t.tradeChannel| == |s.tradeChannel| && |t.batch| == |s.batch| && |t.batchChannel| == |s.batchChannel|
        && |InFlight(t.workers)| < |InFlight(s.workers)|)
  }

  lemma FinishIsNearer<T>(c: Config, s: State<T>, busy: nat)
    requires busy < |s.workers| && s.workers[busy].Busy?
    ensures var t := Apply(c, s, Finish(busy, true));
            t.cancelled == s.cancelled && t.droppedTrades == s.droppedTrades && Nearer(t, s)
  {
    FinishFreesOne(s.workers, busy);
    hide InFlight;
  }

  lemma TakeIsNearer<T>(c: Config, s: State<T>)
    requires s.workers != [] && s.workers[0].Idle? && s.batchChannel != []
    ensures var t := Apply(c, s, Take(0));
            t.cancelled == s.cancelled && t.droppedTrades == s.droppedTrades && Nearer(t, s)
  {
    hide InFlight;
  }

  lemma CollectIsNearer<T>(c: Config, s: State<T>)
    requires c.workerCount > 0 && s.collecting && s.batchChannel == []
    ensures s.tradeChannel != [] ==>
              var t := Apply(c, s, Receive);
              t.cancelled == s.cancelled && t.droppedTrades == s.droppedTrades && Nearer(t, s)
    ensures s.batch != [] ==>
              var t := Apply(c, s, Tick);
              t.cancelled == s.cancelled && t.droppedTrades == s.droppedTrades && Nearer(t, s)
  {
    hide InFlight;
  }

  /** A run that is not drained and not cancelled has a step that brings it nearer and drops nothing. */
  lemma DrainStep<T>(c: Config, steps: seq<Step<T>>) returns (step: Step<T>)
    requires c.workerCount > 0 && !Run(c, steps).cancelled && !Drained(Run(c, steps))
    ensures !step.AddTrade? && !step.Cancel?
    ensures var t := Run(c, steps + [step]);
            !t.cancelled && t.droppedTrades == Run(c, steps).droppedTrades && Nearer(t, Run(c, steps))
  {
    var s := Run(c, steps);
    EveryRunIsSound(c, steps);
    UncancelledIsRunning(c, steps);
    var busy := SomeBusy(s);
    step := NextToDrain(s, busy);
    RunSnoc(c, steps, step);
    hide Run, Apply, InFlight, InOrder, Fifo, Settled, Counted, AllShaped, Nearer;
    if busy < |s.workers| {
      FinishIsNearer(c, s, busy);
    } else if s.batchChannel != [] {
      TakeIsNearer(c, s);
    } else {
      CollectIsNearer(c, s);
    }
  }

  /** No trade is ever stuck: from every state reached before cancellation some continuation stores
      everything the pipeline holds and drops nothing. */
  lemma {:induction false} CanAlwaysDrain<T>(c: Config, steps: seq<Step<T>>) returns (more: seq<Step<T>>)
    requires c.workerCount > 0 && !Run(c, steps).cancelled
    ensures forall i :: 0 <= i < |more| ==> !more[i].AddTrade? && !more[i].Cancel?
    ensures Drained(Run(c, steps + more)) && Run(c, steps + more).droppedTrades == Run(c, steps).droppedTrades
    decreases |Run(c, steps).tradeChannel|, |Run(c, steps).batch|, |Run(c, steps).batchChannel|,
              |InFlight(Run(c, steps).workers)|
  {
    hide Run, Apply, Drained, InFlight;
    if Drained(Run(c, steps)) {
      more := [];
      assert steps + [] == steps;
    } else {
      var step := DrainStep(c, steps);
      var rest := CanAlwaysDrain(c, steps + [step]);
      more := [step] + rest;
      assert steps + more == (steps + [step]) + rest;
    }
  }
}
