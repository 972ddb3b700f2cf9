/** How the symbols of an exchange are divided among WebSocket connections. */
module Sharding {
  import opened Trades

  /** Rounded-up quotient. */
  function CeilDiv(n: nat, d: nat): nat
    requires d > 0
  {
    n / d + if n % d != 0 then 1 else 0
  }

  lemma CeilCovers(n: nat, d: nat)
    requires d > 0
    ensures n <= CeilDiv(n, d) * d
    ensures n > 0 ==> (CeilDiv(n, d) - 1) * d < n
  {
    var q := n / d;
    assert n == q * d + n % d;
    assert (q + 1) * d == q * d + d;
  }

  /** Where the i-th of several nearly equal chunks starts: the first r of them take one more. */
  function ChunkStart(i: nat, q: nat, r: nat): nat {
    i * q + if i < r then i else r
  }

  function ChunkSize(i: nat, q: nat, r: nat): nat {
    if i < r then q + 1 else q
  }

  lemma ChunkSizeIs(i: nat, q: nat, r: nat)
    ensures ChunkSize(i, q, r) == if i < r then q + 1 else q
  {
  }

  lemma NextChunk(i: nat, q: nat, r: nat)
    ensures ChunkStart(i + 1, q, r) == ChunkStart(i, q, r) + ChunkSize(i, q, r)
  {
    assert (i + 1) * q == i * q + q;
  }

  lemma {:induction false} ChunksGrow(i: nat, k: nat, q: nat, r: nat)
    requires i <= k
    ensures ChunkStart(i, q, r) <= ChunkStart(k, q, r)
  {
    if i < k {
      ChunksGrow(i, k - 1, q, r);
      NextChunk(k - 1, q, r);
    }
  }

  /** Chunks of one list, in order and differing by at most one symbol. */
  ghost predicate IsBalanced(chunks: seq<seq<string>>, symbols: seq<string>) {
    && Concat(chunks) == symbols
    && forall i, j :: 0 <= i < |chunks| && 0 <= j < |chunks| ==> |chunks[i]| <= |chunks[j]| + 1
  }

  lemma LessTimes(a: int, b: int, k: int)
    requires k > 0 && a * k < b * k
    ensures a < b
  {}

  lemma AtMostTimes(a: int, b: int, k: int)
    requires k > 0 && a * k <= b * k
    ensures a <= b
  {}

  /** Enough chunks for the limit means no chunk is over it. */
  lemma ChunkWithinLimit(n: nat, count: nat, max: nat, i: nat)
    requires count > 0 && n <= count * max && i < count
    ensures ChunkSize(i, n / count, n % count) <= max
  {
    var q, r := n / count, n % count;
    assert n == q * count + r;
    if i < r {
      LessTimes(q, max, count);
    } else {
      AtMostTimes(q, max, count);
    }
  }

  lemma {:induction false} ConcatBound(chunks: seq<seq<string>>, max: nat)
    requires forall i :: 0 <= i < |chunks| ==> |chunks[i]| <= max
    ensures |Concat(chunks)| <= |chunks| * max
  {
    if chunks != [] {
      var n := |chunks| - 1;
      ConcatBound(chunks[..n], max);
      assert |chunks| * max == n * max + max;
    }
  }

  /** No division with fewer connections keeps every one within the limit. */
  lemma FewestWorkers(symbols: seq<string>, max: nat, chunks: seq<seq<string>>)
    requires max > 0 && symbols != [] && Concat(chunks) == symbols
    requires forall i :: 0 <= i < |chunks| ==> |chunks[i]| <= max
    ensures |chunks| >= CeilDiv(|symbols|, max)
  {
    ConcatBound(chunks, max);
    CeilCovers(|symbols|, max);
    LessTimes(CeilDiv(|symbols|, max) - 1, |chunks|, max);
  }

  class SafeWorkerPool {
    const symbols: seq<string>
    const maxSymbolsPerWorker: nat
    const workerCount: nat

    /** A limit that is not positive becomes 100; there is always at least one worker. */
    constructor (symbols: seq<string>, maxSymbolsPerConnection: int)
      ensures this.symbols == symbols
      ensures maxSymbolsPerWorker == if maxSymbolsPerConnection <= 0 then 100 else maxSymbolsPerConnection
      ensures workerCount == if symbols == [] then 1 else CeilDiv(|symbols|, maxSymbolsPerWorker)
      ensures workerCount >= 1 && |symbols| <= workerCount * maxSymbolsPerWorker
    {
      this.symbols := symbols;
      var maxSymbols: nat := if maxSymbolsPerConnection <= 0 then 100 else maxSymbolsPerConnection;
      var count := |symbols| / maxSymbols;
      if |symbols| % maxSymbols != 0 {
        count := count + 1;
      }
      CeilCovers(|symbols|, maxSymbols);
      assert count == 0 ==> symbols == [];
      assert symbols == [] ==> count == 0;
      if count == 0 {
        count := 1;
      }
      maxSymbolsPerWorker := maxSymbols;
      workerCount := count;
    }

    method DistributeSymbols() returns (chunks: seq<seq<string>>)
      requires workerCount >= 1
      ensures |chunks| == workerCount
      ensures IsBalanced(chunks, symbols)
      ensures |symbols| <= workerCount * maxSymbolsPerWorker ==>
                forall i :: 0 <= i < |chunks| ==> |chunks[i]| <= maxSymbolsPerWorker
    {
      var q, r := |symbols| / workerCount, |symbols| % workerCount;
      assert ChunkStart(workerCount, q, r) == |symbols|;
      chunks := [];
      var startIndex := 0;
      for i := 0 to workerCount
        invariant |chunks| == i
        invariant startIndex == ChunkStart(i, q, r) <= |symbols|
        invariant Concat(chunks) == symbols[..startIndex]
        invariant forall k :: 0 <= k < i ==> |chunks[k]| == ChunkSize(k, q, r)
      {
        hide ChunkStart, ChunkSize, Concat;
        NextChunk(i, q, r);
        ChunksGrow(i + 1, workerCount, q, r);
        ChunkSizeIs(i, q, r);
        var chunkSize := q;
        if i < r {
          chunkSize := chunkSize + 1;
        }
        var chunk := [];
        if startIndex < |symbols| {
          var endIndex := startIndex + chunkSize;
          if endIndex > |symbols| {
            endIndex := |symbols|;
          }
          chunk := symbols[startIndex..endIndex];
          assert symbols[..startIndex] + chunk == symbols[..endIndex];
          startIndex := endIndex;
        }
        assert |chunk| == ChunkSize(i, q, r);
        ConcatSnoc(chunks, chunk);
        chunks := chunks + [chunk];
      }
      assert symbols[..startIndex] == symbols;
      if |symbols| <= workerCount * maxSymbolsPerWorker {
        forall i | 0 <= i < |chunks| ensures |chunks[i]| <= maxSymbolsPerWorker {
          ChunkWithinLimit(|symbols|, workerCount, maxSymbolsPerWorker, i);
        }
      }
    }
  }

  /** How many leading symbols a pool with a connection limit serves. */
  function Served(n: nat, max: nat, maxConnections: int): nat {
    if maxConnections <= 0 then 0 else if n < maxConnections * max then n else maxConnections * max
  }

  /** How far i fixed strides reach. */
  function Reach(n: nat, max: nat, i: nat): nat {
    if i * max < n then i * max else n
  }

  lemma ReachIsServed(n: nat, max: nat, maxConnections: int)
    requires max >= 1
    ensures var workers: int := if CeilDiv(n, max) > maxConnections then maxConnections else CeilDiv(n, max);
            Reach(n, max, if workers < 0 then 0 else workers) == Served(n, max, maxConnections)
  {
    CeilCovers(n, max);
    if 0 < CeilDiv(n, max) <= maxConnections {
      ScaleUp(CeilDiv(n, max), maxConnections, max);
    }
  }

  lemma ScaleUp(a: nat, b: nat, k: nat)
    requires a <= b
    ensures a * k <= b * k
  {}

  lemma NextReach(n: nat, max: nat, i: nat)
    ensures i * max + max == (i + 1) * max
    ensures Reach(n, max, i + 1) == if i * max + max < n then i * max + max else n
  {}

  /** Fixed-stride slices up to the connection limit: the first symbols, each once, the rest not at all. */
  method CreateWorkers(symbols: seq<string>, maxSymbolsPerConn: nat, maxConnections: int, knownExchange: bool)
    returns (workers: seq<seq<string>>)
    requires maxSymbolsPerConn >= 1
    ensures Concat(workers) == if knownExchange then symbols[..Served(|symbols|, maxSymbolsPerConn, maxConnections)] else []
    ensures forall i :: 0 <= i < |workers| ==> 1 <= |workers[i]| <= maxSymbolsPerConn
    ensures maxConnections >= 0 ==> |workers| <= maxConnections
    ensures knownExchange && maxConnections >= 0 ==>
              (Concat(workers) == symbols <==> |symbols| <= maxConnections * maxSymbolsPerConn)
  {
    ReachIsServed(|symbols|, maxSymbolsPerConn, maxConnections);
    hide Served, CeilDiv;
    var numWorkers: int := CeilDiv(|symbols|, maxSymbolsPerConn);
    if numWorkers > maxConnections {
      numWorkers := maxConnections;
    }
    workers := [];
    var i: nat := 0;
    while i < numWorkers
      invariant i <= if numWorkers < 0 then 0 else numWorkers
      invariant |workers| <= i
      invariant Concat(workers) == if knownExchange then symbols[..Reach(|symbols|, maxSymbolsPerConn, i)] else []
      invariant forall k :: 0 <= k < |workers| ==> 1 <= |workers[k]| <= maxSymbolsPerConn
    {
      NextReach(|symbols|, maxSymbolsPerConn, i);
      var startIdx := i * maxSymbolsPerConn;
      var endIdx := startIdx + maxSymbolsPerConn;
      if endIdx > |symbols| {
        endIdx := |symbols|;
      }
      if startIdx < |symbols| && knownExchange {
        ConcatSnoc(workers, symbols[startIdx..endIdx]);
        assert symbols[..startIdx] + symbols[startIdx..endIdx] == symbols[..endIdx];
        workers := workers + [symbols[startIdx..endIdx]];
      }
      i := i + 1;
    }
  }
}
