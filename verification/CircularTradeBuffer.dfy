/** The circular trade buffer itself: 1200 buckets written in place, a hot cache beside
    them, and backup and restore. Its ghost field `log` is the flat list of writes the
    buffer stands for; every answer is stated against that log. */
module CircularTradeBuffers {
  import opened Trades
  import opened TimeIndex
  import opened HotCache

  const CIRCULAR_BUFFER_DURATION: int := 1200 * NANOS_PER_SECOND

  const ACTIVE_EXCHANGES: seq<string> :=
    ["binance_spot", "binance_futures", "bybit_spot", "bybit_futures", "okx_spot", "okx_futures",
     "kucoin_spot", "kucoin_futures", "gate_spot", "gate_futures"]

  /** Trades of one bucket, by exchange key. */
  type Bucket = map<string, seq<TradeEvent>>

  datatype TradeSlice = TradeSlice(trades: seq<TradeEvent>, lastUsed: int64)

  datatype BackupData = BackupData(
    backupTime: int64, buckets: map<nat, Bucket>, hotCache: map<string, seq<TradeEvent>>, totalEvents: int)

  datatype Result<T> = Ok(value: T) | Closed

  /** The bucket holds exactly the log's trades for that index, and no empty slices. */
  ghost predicate Represents(bucket: Bucket, log: Log, b: int) {
    forall ex: string :: SliceIs(bucket, ex, BucketContent(log, ex, b))
  }

  /** The slice of `ex` is `content`, or absent when `content` is empty. */
  ghost predicate SliceIs<T>(bucket: map<string, seq<T>>, ex: string, content: seq<T>) {
    (ex in bucket <==> content != []) && (ex in bucket ==> bucket[ex] == content)
  }

  ghost predicate CacheRepresents(cache: map<string, seq<TradeEvent>>, log: Log, refreshes: map<string, Refresh>) {
    && cache.Keys == refreshes.Keys
    && forall ex :: ex in cache ==> EntryIs(cache[ex], log, ex, refreshes[ex])
  }

  ghost predicate EntryIs(trades: seq<TradeEvent>, log: Log, ex: string, r: Refresh) {
    r.prefix <= |log| && Sensible(r) && trades == Entry(log, ex, r) && trades != []
  }

  /** The backup of a buffer that stood for `log`: empty buckets are not written. */
  ghost predicate Describes(backup: BackupData, log: Log, refreshes: map<string, Refresh>) {
    && (forall b :: b in backup.buckets ==> 0 <= b < BUCKET_COUNT)
    && (forall b :: 0 <= b < BUCKET_COUNT ==>
          Represents(if b in backup.buckets then backup.buckets[b] else map[], log, b))
    && CacheRepresents(backup.hotCache, log, refreshes)
    && backup.totalEvents == |log|
  }

  function Cached(hotCache: map<string, TradeSlice>): map<string, seq<TradeEvent>> {
    map ex | ex in hotCache :: hotCache[ex].trades
  }

  function Appended(bucket: Bucket, exchange: string, trades: seq<TradeEvent>): Bucket {
    bucket[exchange := (if exchange in bucket then bucket[exchange] else []) + trades]
  }

  /** One log determines the buckets completely. */
  lemma RepresentsIsUnique(x: Bucket, y: Bucket, log: Log, b: int)
    requires Represents(x, log, b) && Represents(y, log, b)
    ensures x == y
  {
    forall ex: string ensures (ex in x <==> ex in y) && (ex in x ==> x[ex] == y[ex]) {
      assert SliceIs(x, ex, BucketContent(log, ex, b)) && SliceIs(y, ex, BucketContent(log, ex, b));
    }
    assert x.Keys == y.Keys;
  }

  lemma AppendRepresents(bucket: Bucket, log: Log, b: int, r: WriteRequest)
    requires Represents(bucket, log, b)
    ensures Represents(if GetBucketIndex(r.trade.timestamp) == b then Appended(bucket, r.exchange, [r.trade]) else bucket,
                       log + [r], b)
  {
    var bucket' := if GetBucketIndex(r.trade.timestamp) == b then Appended(bucket, r.exchange, [r.trade]) else bucket;
    forall ex: string ensures SliceIs(bucket', ex, BucketContent(log + [r], ex, b)) {
      assert SliceIs(bucket, ex, BucketContent(log, ex, b));
      SelectSnoc(log, r, (w: WriteRequest) => w.exchange == ex && GetBucketIndex(w.trade.timestamp) == b);
    }
  }

  /** Later writes leave what an old refresh collected unchanged. */
  lemma CacheOutlivesWrites(cache: map<string, seq<TradeEvent>>, log: Log, refreshes: map<string, Refresh>, more: Log)
    requires CacheRepresents(cache, log, refreshes)
    ensures CacheRepresents(cache, log + more, refreshes)
  {
    forall ex | ex in cache ensures EntryIs(cache[ex], log + more, ex, refreshes[ex]) {
      assert EntryIs(cache[ex], log, ex, refreshes[ex]);
      assert (log + more)[..refreshes[ex].prefix] == log[..refreshes[ex].prefix];
    }
  }

  lemma NewEntryIs(log: Log, ex: string, now: int64)
    requires now - HOT_NANOS > NANO_THRESHOLD && RecentlyTraded(log, ex, now)
    ensures EntryIs(FlatAnswer(log, ex, now - HOT_NANOS, now), log, ex, Refresh(|log|, now))
  {
    assert log[..|log|] == log;
  }

  lemma CacheRefresh(cache: map<string, seq<TradeEvent>>, log: Log, refreshes: map<string, Refresh>, ex: string, now: int64)
    requires CacheRepresents(cache, log, refreshes)
    requires now - HOT_NANOS > NANO_THRESHOLD && RecentlyTraded(log, ex, now)
    ensures CacheRepresents(cache[ex := FlatAnswer(log, ex, now - HOT_NANOS, now)], log, refreshes[ex := Refresh(|log|, now)])
  {
    var cache' := cache[ex := FlatAnswer(log, ex, now - HOT_NANOS, now)];
    var refreshes' := refreshes[ex := Refresh(|log|, now)];
    NewEntryIs(log, ex, now);
    hide EntryIs, RecentlyTraded, FlatAnswer;
    forall e | e in cache' ensures EntryIs(cache'[e], log, e, refreshes'[e]) {
      assert e != ex ==> EntryIs(cache[e], log, e, refreshes[e]);
    }
  }

  class CircularTradeBuffer {
    const buckets: array<Bucket>
    var hotCache: map<string, TradeSlice>
    var totalEvents: int
    var closed: bool
    ghost var log: Log
    ghost var refreshes: map<string, Refresh>

    ghost predicate Indexed()
      reads this, buckets
    {
      && buckets.Length == BUCKET_COUNT
      && forall b :: 0 <= b < BUCKET_COUNT ==> Represents(buckets[b], log, b)
    }

    ghost predicate Valid()
      reads this, buckets
    {
      && Indexed()
      && CacheRepresents(Cached(hotCache), log, refreshes)
      && totalEvents == |log|
    }

    constructor ()
      ensures Valid() && fresh(buckets) && log == [] && hotCache == map[] && !closed
    {
      buckets := new Bucket[BUCKET_COUNT](_ => map[]);
      hotCache, totalEvents, closed := map[], 0, false;
      log, refreshes := [], map[];
    }

    method StoreTradeEvent(exchange: string, trade: TradeEvent) returns (r: Result<()>)
      requires Valid()
      modifies this`totalEvents, this`log, buckets
      ensures Valid()
      ensures r == if closed then Closed else Ok(())
      ensures log == if closed then old(log) else old(log) + [WriteRequest(exchange, trade)]
    {
      if closed {
        return Closed;
      }
      DirectWrite(exchange, trade);
      return Ok(());
    }

    method DirectWrite(exchange: string, trade: TradeEvent)
      requires Valid()
      modifies this`totalEvents, this`log, buckets
      ensures Valid()
      ensures log == old(log) + [WriteRequest(exchange, trade)]
    {
      var bucketIdx := GetBucketIndex(trade.timestamp);
      ghost var r := WriteRequest(exchange, trade);
      forall b | 0 <= b < BUCKET_COUNT
        ensures Represents(if bucketIdx == b then Appended(buckets[b], exchange, [trade]) else buckets[b], log + [r], b)
      {
        AppendRepresents(buckets[b], log, b, r);
      }
      CacheOutlivesWrites(Cached(hotCache), log, refreshes, [r]);
      buckets[bucketIdx] := Appended(buckets[bucketIdx], exchange, [trade]);
      totalEvents := totalEvents + 1;
      log := log + [r];
    }

    /** The bucket walk: it ends for every pair of buckets and returns what `Cold` says. */
    method GetFromColdBuffer(exchange: string, startNano: int64, endNano: int64) returns (result: seq<TradeEvent>)
      requires Indexed()
      ensures result == Cold(log, exchange, startNano, endNano)
    {
      var startBucket, endBucket := GetBucketIndex(startNano), GetBucketIndex(endNano);
      var startMilli, endMilli := Millis(startNano), Millis(endNano);
      result := [];
      var current := startBucket;
      ghost var n := 0;
      while true
        invariant 0 <= n < WalkLength(startBucket, endBucket)
        invariant current == (startBucket + n) % BUCKET_COUNT
        invariant result == Walk(log, exchange, startBucket, n, startMilli, endMilli)
        decreases WalkLength(startBucket, endBucket) - n
      {
        result := AppendBucket(result, exchange, current, startMilli, endMilli);
        n := n + 1;
        WalkEnds(startBucket, endBucket, n);
        if current == endBucket {
          break;
        }
        current := (current + 1) % BUCKET_COUNT;
      }
    }

    method AppendBucket(result: seq<TradeEvent>, exchange: string, current: int, startMilli: int, endMilli: int)
      returns (extended: seq<TradeEvent>)
      requires Indexed() && 0 <= current < BUCKET_COUNT
      ensures extended == result + Filter(BucketContent(log, exchange, current), (t: TradeEvent) => InRange(t, startMilli, endMilli))
    {
      extended := result;
      assert Represents(buckets[current], log, current);
      assert SliceIs(buckets[current], exchange, BucketContent(log, exchange, current));
      if exchange in buckets[current] {
        var found := SelectRange(buckets[current][exchange], startMilli, endMilli);
        extended := extended + found;
      }
    }

    /** The state of the buffer in the middle of a flush: some group writes and some counter
        additions are still to come. */
    ghost predicate Flushing(batch: Log, pending: map<(string, int), seq<TradeEvent>>, uncounted: set<string>)
      reads this, buckets
    {
      && buckets.Length == BUCKET_COUNT
      && (forall b :: 0 <= b < BUCKET_COUNT ==> Partly(buckets[b], log, batch, b, pending.Keys))
      && AreGroups(pending, batch)
      && totalEvents == |log| + |batch| - Uncounted(batch, uncounted)
    }

    /** Writes a batch group by group and leaves the buffer as if the requests had been
        written one after the other. */
    method FlushBatch(batch: Log)
      requires Valid()
      modifies this`totalEvents, this`log, buckets
      ensures Valid()
      ensures log == old(log) + batch
    {
      var groups := GroupByExchange(batch);
      var pending := BucketWrites(batch, groups);
      GroupSizes(batch, groups.Keys);
      StartOfFlush(log, batch, pending);
      RunGroupWrites(batch, groups, pending);
      ghost var none: map<(string, int), seq<TradeEvent>> := map[];
      assert none.Keys == {};
      UncountedNone(batch);
      EndOfFlush(log, batch);
      CacheOutlivesWrites(Cached(hotCache), log, refreshes, batch);
      log := log + batch;
    }

    /** The per-exchange goroutines share nothing but the locked bucket writes and the counter,
        so any order of those steps is a possible run; the arbitrary choices cover them all. */
    method RunGroupWrites(batch: Log, groups: map<string, Log>, writes: map<(string, int), seq<TradeEvent>>)
      requires Flushing(batch, writes, groups.Keys)
      requires AreExchangeGroups(groups, batch)
      modifies this`totalEvents, buckets
      ensures Flushing(batch, map[], {})
    {
      var pending, uncounted := writes, groups.Keys;
      while pending != map[] || uncounted != {}
        invariant uncounted <= groups.Keys
        invariant Flushing(batch, pending, uncounted)
        decreases |pending| + |uncounted|
      {
        var writeNext: bool := *;
        if uncounted == {} || (pending != map[] && writeNext) {
          var k :| k in pending;
          RemoveShrinks(pending, k);
          WriteGroup(k, batch, pending, uncounted);
          pending := pending - {k};
        } else {
          var ex :| ex in uncounted;
          assert SliceIs(groups, ex, OfExchange(batch, ex));
          CountGroup(ex, groups[ex], batch, pending, uncounted);
          uncounted := uncounted - {ex};
        }
      }
    }

    /** One goroutine's addition to the event counter. */
    method CountGroup(ex: string, requests: Log, ghost batch: Log, ghost pending: map<(string, int), seq<TradeEvent>>,
                      ghost uncounted: set<string>)
      requires Flushing(batch, pending, uncounted) && ex in uncounted && requests == OfExchange(batch, ex)
      modifies this`totalEvents
      ensures Flushing(batch, pending, uncounted - {ex})
    {
      UncountedStep(batch, uncounted, ex);
      totalEvents := totalEvents + |requests|;
    }

    /** One goroutine's append to one bucket, under that bucket's lock. */
    method WriteGroup(k: (string, int), ghost batch: Log, pending: map<(string, int), seq<TradeEvent>>, ghost uncounted: set<string>)
      requires Flushing(batch, pending, uncounted) && k in pending
      modifies buckets
      ensures Flushing(batch, pending - {k}, uncounted)
    {
      RemoveShrinks(pending, k);
      forall b | 0 <= b < BUCKET_COUNT
        ensures Partly(if k.1 == b then Appended(buckets[b], k.0, pending[k]) else buckets[b], log, batch, b, (pending - {k}).Keys)
      {
        PartlyStep(buckets[b], log, batch, b, pending.Keys, k);
      }
      buckets[k.1] := Appended(buckets[k.1], k.0, pending[k]);
    }

    /** The same writes one request at a time. */
    method WriteOneByOne(batch: Log)
      requires Valid()
      modifies this`totalEvents, this`log, buckets
      ensures Valid()
      ensures log == old(log) + batch
    {
      for i := 0 to |batch|
        invariant Valid() && log == old(log) + batch[..i]
      {
        DirectWrite(batch[i].exchange, batch[i].trade);
        assert batch[..i + 1] == batch[..i] + [batch[i]];
      }
      assert batch[..|batch|] == batch;
    }

    /** The hot answer, or nothing when there is no fresh entry. */
    method GetFromHotCache(exchange: string, startNano: int64, endNano: int64, now: int64) returns (result: seq<TradeEvent>)
      ensures result == if Fresh(hotCache, exchange, now)
                        then HotAnswer(hotCache[exchange].trades, startNano, endNano) else []
    {
      if exchange !in hotCache || hotCache[exchange].lastUsed < now - HOT_NANOS {
        return [];
      }
      result := SelectRange(hotCache[exchange].trades, Millis(startNano), Millis(endNano));
    }

    /** A query. A hot hit is an ordered part of the flat answer, and all of it exactly when the
        refresh covered the range; everything else is answered from the buckets. */
    method GetTradeEvents(exchange: string, startNano: int64, endNano: int64, now: int64) returns (r: Result<seq<TradeEvent>>)
      requires Valid()
      ensures closed <==> r == Closed
      ensures r.Ok? && !HotHit(hotCache, exchange, startNano, endNano, now) ==>
        r.value == Cold(log, exchange, startNano, endNano)
      ensures r.Ok? && SimpleQuery(startNano, endNano) ==>
        && Subsequence(r.value, FlatAnswer(log, exchange, startNano, endNano))
        && (!HotHit(hotCache, exchange, startNano, endNano, now) ==> r.value == FlatAnswer(log, exchange, startNano, endNano))
        && (HotHit(hotCache, exchange, startNano, endNano, now) ==>
              (r.value == FlatAnswer(log, exchange, startNano, endNano)
               <==> Covered(log, exchange, refreshes[exchange], startNano, endNano)))
    {
      if closed {
        return Closed;
      }
      var trades := GetFromHotCache(exchange, startNano, endNano, now);
      if trades != [] {
        assert EntryIs(Cached(hotCache)[exchange], log, exchange, refreshes[exchange]);
        if SimpleQuery(startNano, endNano) {
          HotIsSound(log, exchange, refreshes[exchange], startNano, endNano);
          HotIsCompleteIffCovered(log, exchange, refreshes[exchange], startNano, endNano);
        }
        return Ok(trades);
      }
      trades := GetFromColdBuffer(exchange, startNano, endNano);
      if SimpleQuery(startNano, endNano) {
        ColdIsFlatAnswer(log, exchange, startNano, endNano);
        SubsequenceReflexive(trades);
      }
      return Ok(trades);
    }

    /** Recollects the last two minutes of one exchange; without recent trades its old
        entry stays. */
    method RefreshExchange(exchange: string, now: int64)
      requires Valid() && now - HOT_NANOS > NANO_THRESHOLD
      modifies this`hotCache, this`refreshes
      ensures Valid()
      ensures if !RecentlyTraded(log, exchange, now)
              then hotCache == old(hotCache) && refreshes == old(refreshes)
              else hotCache == old(hotCache)[exchange := TradeSlice(FlatAnswer(log, exchange, now - HOT_NANOS, now), now)]
                   && refreshes == old(refreshes)[exchange := Refresh(|log|, now)]
    {
      var trades := GetFromColdBuffer(exchange, now - HOT_NANOS, now);
      RecentIsExact(log, exchange, now);
      if |trades| > 0 {
        CacheRefresh(Cached(hotCache), log, refreshes, exchange, now);
        InstallEntry(exchange, TradeSlice(trades, now), Refresh(|log|, now));
      }
    }

    /** Replaces one entry of the cache map. */
    method InstallEntry(exchange: string, slice: TradeSlice, ghost r: Refresh)
      requires Valid() && CacheRepresents(Cached(hotCache)[exchange := slice.trades], log, refreshes[exchange := r])
      modifies this`hotCache, this`refreshes
      ensures Valid()
      ensures hotCache == old(hotCache)[exchange := slice] && refreshes == old(refreshes)[exchange := r]
    {
      assert Cached(hotCache[exchange := slice]) == Cached(hotCache)[exchange := slice.trades];
      hotCache, refreshes := hotCache[exchange := slice], refreshes[exchange := r];
    }

    /** After the maintenance tick every active exchange with trades in the last two minutes
        has an entry of this very moment; all other entries are as before. */
    method UpdateHotCache(now: int64)
      requires Valid() && now - HOT_NANOS > NANO_THRESHOLD
      modifies this`hotCache, this`refreshes
      ensures Valid()
      ensures forall ex :: ex in ACTIVE_EXCHANGES && RecentlyTraded(log, ex, now) ==> RefreshedAt(ex, now)
      ensures forall ex :: !(ex in ACTIVE_EXCHANGES && RecentlyTraded(log, ex, now)) ==>
        Unmoved(old(hotCache), hotCache, ex) && Unmoved(old(refreshes), refreshes, ex)
    {
      RefreshAll(ACTIVE_EXCHANGES, now);
    }

    ghost predicate RefreshedAt(ex: string, now: int64)
      reads this
    {
      ex in hotCache && ex in refreshes && refreshes[ex] == Refresh(|log|, now) && hotCache[ex].lastUsed == now
    }

    method RefreshAll(exchanges: seq<string>, now: int64)
      requires Valid() && now - HOT_NANOS > NANO_THRESHOLD
      modifies this`hotCache, this`refreshes
      ensures Valid()
      ensures forall ex :: ex in exchanges && RecentlyTraded(log, ex, now) ==> RefreshedAt(ex, now)
      ensures forall ex :: !(ex in exchanges && RecentlyTraded(log, ex, now)) ==>
        Unmoved(old(hotCache), hotCache, ex) && Unmoved(old(refreshes), refreshes, ex)
    {
      hide RecentlyTraded, Indexed, CacheRepresents, FlatAnswer;
      for i := 0 to |exchanges|
        invariant Valid()
        invariant forall ex :: ex in exchanges[..i] && RecentlyTraded(log, ex, now) ==> RefreshedAt(ex, now)
        invariant forall ex :: !(ex in exchanges[..i] && RecentlyTraded(log, ex, now)) ==>
          Unmoved(old(hotCache), hotCache, ex) && Unmoved(old(refreshes), refreshes, ex)
      {
        assert exchanges[..i + 1] == exchanges[..i] + [exchanges[i]];
        RefreshExchange(exchanges[i], now);
      }
    }

    /** The backup describes the whole buffer. */
    method SaveToBackup(now: int64) returns (backup: BackupData)
      requires Valid()
      ensures Describes(backup, log, refreshes) && backup.backupTime == now
    {
      var saved: map<nat, Bucket> := map[];
      for i := 0 to BUCKET_COUNT
        invariant forall b :: b in saved <==> 0 <= b < i && buckets[b] != map[]
        invariant forall b :: b in saved ==> saved[b] == buckets[b]
      {
        if buckets[i] != map[] {
          saved := saved[i := buckets[i]];
        }
      }
      backup := BackupData(now, saved, Cached(hotCache), totalEvents);
      forall b | 0 <= b < BUCKET_COUNT
        ensures Represents(if b in backup.buckets then backup.buckets[b] else map[], log, b)
      {
        assert Represents(buckets[b], log, b);
      }
    }

    /** Backs the buffer up, refuses further calls and drops the hot cache. */
    method Close(now: int64) returns (backup: BackupData)
      requires Valid() && !closed
      modifies this`closed, this`hotCache, this`refreshes
      ensures Valid() && closed && log == old(log) && hotCache == map[]
      ensures Describes(backup, old(log), old(refreshes)) && backup.backupTime == now
    {
      backup := SaveToBackup(now);
      closed, hotCache, refreshes := true, map[], map[];
    }

    /** Only the buckets present in the backup are replaced. */
    method RestoreBuckets(saved: map<nat, Bucket>)
      requires buckets.Length == BUCKET_COUNT
      requires forall b :: b in saved ==> 0 <= b < BUCKET_COUNT
      modifies buckets
      ensures forall b :: 0 <= b < BUCKET_COUNT ==> buckets[b] == if b in saved then saved[b] else old(buckets[b])
    {
      var todo := saved.Keys;
      while todo != {}
        invariant todo <= saved.Keys
        invariant forall b :: 0 <= b < BUCKET_COUNT ==>
          buckets[b] == if b in saved && b !in todo then saved[b] else old(buckets[b])
        decreases |todo|
      {
        var bucketIndex :| bucketIndex in todo;
        buckets[bucketIndex] := saved[bucketIndex];
        todo := todo - {bucketIndex};
      }
    }

    /** Restores a backup no older than the buffer's duration; hot entries count as just used.
        A fresh buffer then stands for the log the backup was taken of. */
    method LoadFromBackup(backup: BackupData, now: int64, ghost saved: Log, ghost savedRefreshes: map<string, Refresh>)
      requires Valid() && log == [] && hotCache == map[]
      requires Describes(backup, saved, savedRefreshes)
      modifies this, buckets
      ensures Valid() && closed == old(closed)
      ensures now - backup.backupTime > CIRCULAR_BUFFER_DURATION ==> log == [] && hotCache == map[]
      ensures now - backup.backupTime <= CIRCULAR_BUFFER_DURATION ==>
        && log == saved && refreshes == savedRefreshes && Cached(hotCache) == backup.hotCache
        && forall ex :: ex in hotCache ==> hotCache[ex].lastUsed == now
    {
      if now - backup.backupTime > CIRCULAR_BUFFER_DURATION {
        return;
      }
      totalEvents := backup.totalEvents;
      forall b | 0 <= b < BUCKET_COUNT ensures buckets[b] == map[] {
        assert Represents(buckets[b], [], b);
        EmptyLogEmptyBucket(buckets[b], b);
      }
      RestoreBuckets(backup.buckets);
      hotCache := map ex | ex in backup.hotCache :: TradeSlice(backup.hotCache[ex], now);
      assert Cached(hotCache) == backup.hotCache;
      log, refreshes := saved, savedRefreshes;
    }
  }

  /** Two buffers that stand for the same log agree in every bucket and in the counter: how
      the writes were batched, grouped or interleaved leaves no trace. */
  lemma SameLogSameBuckets(x: CircularTradeBuffer, y: CircularTradeBuffer)
    requires x.Valid() && y.Valid() && x.log == y.log
    ensures x.buckets[..] == y.buckets[..] && x.totalEvents == y.totalEvents
  {
    forall b | 0 <= b < BUCKET_COUNT ensures x.buckets[b] == y.buckets[b] {
      RepresentsIsUnique(x.buckets[b], y.buckets[b], x.log, b);
    }
  }

  lemma RemoveShrinks<K, V>(m: map<K, V>, k: K)
    requires k in m
    ensures (m - {k}).Keys == m.Keys - {k} && |m - {k}| == |m| - 1
  {
    assert m == (m - {k})[k := m[k]];
  }

  /** Each pending write appends the batch's trades for one exchange and bucket. */
  ghost predicate AreGroups(pending: map<(string, int), seq<TradeEvent>>, batch: Log) {
    forall k :: k in pending ==> 0 <= k.1 < BUCKET_COUNT && pending[k] == BucketContent(batch, k.0, k.1) != []
  }

  ghost predicate Partly(bucket: Bucket, log: Log, batch: Log, b: int, pending: set<(string, int)>) {
    forall ex: string :: SliceIs(bucket, ex, MidFlush(log, batch, b, pending, ex))
  }

  /** Mid-flush, a slice holds the old log's trades and, once its group is written, the batch's. */
  function MidFlush(log: Log, batch: Log, b: int, pending: set<(string, int)>, ex: string): seq<TradeEvent> {
    BucketContent(log, ex, b) + if (ex, b) in pending then [] else BucketContent(batch, ex, b)
  }

  lemma StartOfFlush(log: Log, batch: Log, pending: map<(string, int), seq<TradeEvent>>)
    requires forall ex: string, b: int :: (ex, b) in pending <==> BucketContent(batch, ex, b) != []
    ensures forall bucket, b :: Represents(bucket, log, b) ==> Partly(bucket, log, batch, b, pending.Keys)
  {
    forall bucket, b, ex: string | Represents(bucket, log, b)
      ensures SliceIs(bucket, ex, MidFlush(log, batch, b, pending.Keys, ex))
    {
      assert SliceIs(bucket, ex, BucketContent(log, ex, b));
      assert (ex, b) in pending <==> BucketContent(batch, ex, b) != [];
    }
  }

  lemma PartlyStep(bucket: Bucket, log: Log, batch: Log, b: int, pending: set<(string, int)>, k: (string, int))
    requires Partly(bucket, log, batch, b, pending)
    requires k in pending && BucketContent(batch, k.0, k.1) != []
    ensures Partly(if k.1 == b then Appended(bucket, k.0, BucketContent(batch, k.0, k.1)) else bucket,
                   log, batch, b, pending - {k})
  {
    var bucket' := if k.1 == b then Appended(bucket, k.0, BucketContent(batch, k.0, k.1)) else bucket;
    forall ex: string ensures SliceIs(bucket', ex, MidFlush(log, batch, b, pending - {k}, ex)) {
      assert SliceIs(bucket, ex, MidFlush(log, batch, b, pending, ex));
    }
  }

  lemma EndOfFlush(log: Log, batch: Log)
    ensures forall bucket, b :: Partly(bucket, log, batch, b, {}) ==> Represents(bucket, log + batch, b)
  {
    forall bucket, b, ex: string | Partly(bucket, log, batch, b, {})
      ensures SliceIs(bucket, ex, BucketContent(log + batch, ex, b))
    {
      assert SliceIs(bucket, ex, MidFlush(log, batch, b, {}, ex));
      SelectConcat(log, batch, (w: WriteRequest) => w.exchange == ex && GetBucketIndex(w.trade.timestamp) == b);
    }
  }

  function OfExchange(batch: Log, ex: string): Log {
    Filter(batch, (r: WriteRequest) => r.exchange == ex)
  }

  function OfBucket(requests: Log, b: int): seq<TradeEvent> {
    Select(requests, (r: WriteRequest) => GetBucketIndex(r.trade.timestamp) == b)
  }

  ghost predicate AreExchangeGroups(groups: map<string, Log>, batch: Log) {
    forall ex: string :: SliceIs(groups, ex, OfExchange(batch, ex))
  }

  ghost predicate AreBucketGroups(groups: map<int, seq<TradeEvent>>, requests: Log) {
    forall b: int :: GroupIs(groups, requests, b)
  }

  ghost predicate GroupIs(groups: map<int, seq<TradeEvent>>, requests: Log, b: int) {
    (b in groups <==> OfBucket(requests, b) != []) && (b in groups ==> groups[b] == OfBucket(requests, b))
  }

  method GroupByExchange(batch: Log) returns (groups: map<string, Log>)
    ensures AreExchangeGroups(groups, batch)
    ensures forall r :: r in batch ==> r.exchange in groups
  {
    groups := map[];
    for i := 0 to |batch|
      invariant AreExchangeGroups(groups, batch[..i])
      invariant forall j :: 0 <= j < i ==> batch[j].exchange in groups
    {
      var r := batch[i];
      var grown := groups[r.exchange := (if r.exchange in groups then groups[r.exchange] else []) + [r]];
      assert batch[..i + 1] == batch[..i] + [r];
      var next := batch[..i + 1];
      forall ex: string ensures SliceIs(grown, ex, OfExchange(next, ex)) {
        assert SliceIs(groups, ex, OfExchange(batch[..i], ex));
        FilterSnoc(batch[..i], r, (w: WriteRequest) => w.exchange == ex);
      }
      groups := grown;
    }
    assert batch[..|batch|] == batch;
  }

  method GroupByBucket(requests: Log) returns (groups: map<int, seq<TradeEvent>>)
    ensures AreBucketGroups(groups, requests)
  {
    groups := map[];
    for i := 0 to |requests|
      invariant AreBucketGroups(groups, requests[..i])
    {
      var r := requests[i];
      var bucketIdx := GetBucketIndex(r.trade.timestamp);
      var grown := groups[bucketIdx := (if bucketIdx in groups then groups[bucketIdx] else []) + [r.trade]];
      assert requests[..i + 1] == requests[..i] + [r];
      var next := requests[..i + 1];
      forall b: int ensures GroupIs(grown, next, b) {
        assert GroupIs(groups, requests[..i], b);
        SelectSnoc(requests[..i], r, (w: WriteRequest) => GetBucketIndex(w.trade.timestamp) == b);
      }
      groups := grown;
    }
    assert requests[..|requests|] == requests;
  }

  lemma {:induction false} OfBucketOfExchange(batch: Log, ex: string, b: int)
    ensures OfBucket(OfExchange(batch, ex), b) == BucketContent(batch, ex, b)
  {
    if batch != [] {
      var init, last := batch[..|batch| - 1], batch[|batch| - 1];
      OfBucketOfExchange(init, ex, b);
      if last.exchange == ex {
        assert OfExchange(batch, ex) == OfExchange(init, ex) + [last];
        SelectSnoc(OfExchange(init, ex), last, (r: WriteRequest) => GetBucketIndex(r.trade.timestamp) == b);
      } else {
        assert OfExchange(batch, ex) == OfExchange(init, ex);
      }
    }
  }

  /** All bucket writes of all exchange goroutines. */
  method BucketWrites(batch: Log, groups: map<string, Log>) returns (pending: map<(string, int), seq<TradeEvent>>)
    requires AreExchangeGroups(groups, batch)
    ensures forall ex: string, b: int :: (ex, b) in pending <==> BucketContent(batch, ex, b) != []
    ensures AreGroups(pending, batch)
  {
    pending := map[];
    var todo := groups.Keys;
    while todo != {}
      invariant todo <= groups.Keys
      invariant forall ex: string, b: int ::
        (ex, b) in pending <==> ex in groups && ex !in todo && BucketContent(batch, ex, b) != []
      invariant forall k :: k in pending ==> pending[k] == BucketContent(batch, k.0, k.1)
      decreases |todo|
    {
      var exchange :| exchange in todo;
      var bucketGroups := GroupByBucket(groups[exchange]);
      assert SliceIs(groups, exchange, OfExchange(batch, exchange));
      forall b
        ensures b in bucketGroups <==> BucketContent(batch, exchange, b) != []
        ensures b in bucketGroups ==> bucketGroups[b] == BucketContent(batch, exchange, b)
      {
        assert GroupIs(bucketGroups, groups[exchange], b);
        OfBucketOfExchange(batch, exchange, b);
      }
      pending := pending + map b | b in bucketGroups :: (exchange, b) := bucketGroups[b];
      todo := todo - {exchange};
    }
    forall ex: string, b: int | BucketContent(batch, ex, b) != [] ensures ex in groups && 0 <= b < BUCKET_COUNT {
      assert SliceIs(groups, ex, OfExchange(batch, ex));
      OfBucketOfExchange(batch, ex, b);
      SelectMember(OfExchange(batch, ex), (r: WriteRequest) => GetBucketIndex(r.trade.timestamp) == b);
      assert OfBucket(OfExchange(batch, ex), b)[0] in OfBucket(OfExchange(batch, ex), b);
    }
  }

  /** How many requests belong to exchanges whose goroutine has not counted them yet. */
  function Uncounted(batch: Log, exchanges: set<string>): nat {
    |Filter(batch, (r: WriteRequest) => r.exchange in exchanges)|
  }

  lemma {:induction false} GroupSizes(batch: Log, exchanges: set<string>)
    requires forall r :: r in batch ==> r.exchange in exchanges
    ensures Uncounted(batch, exchanges) == |batch|
  {
    if batch != [] {
      GroupSizes(batch[..|batch| - 1], exchanges);
    }
  }

  lemma {:induction false} UncountedStep(batch: Log, exchanges: set<string>, ex: string)
    requires ex in exchanges
    ensures Uncounted(batch, exchanges) == Uncounted(batch, exchanges - {ex}) + |OfExchange(batch, ex)|
  {
    if batch != [] {
      UncountedStep(batch[..|batch| - 1], exchanges, ex);
    }
  }

  lemma {:induction false} UncountedNone(batch: Log)
    ensures Uncounted(batch, {}) == 0
  {
    if batch != [] {
      UncountedNone(batch[..|batch| - 1]);
    }
  }

  predicate RecentlyTraded(log: Log, exchange: string, now: int64)
    requires now - HOT_NANOS > NANO_THRESHOLD
  {
    FlatAnswer(log, exchange, now - HOT_NANOS, now) != []
  }

  predicate Unmoved<V(==)>(before: map<string, V>, after: map<string, V>, ex: string) {
    (ex in before <==> ex in after) && (ex in before ==> before[ex] == after[ex])
  }

  predicate Fresh(hotCache: map<string, TradeSlice>, exchange: string, now: int64) {
    exchange in hotCache && hotCache[exchange].lastUsed >= now - HOT_NANOS
  }

  predicate HotHit(hotCache: map<string, TradeSlice>, exchange: string, startNano: int64, endNano: int64, now: int64) {
    Fresh(hotCache, exchange, now) && HotAnswer(hotCache[exchange].trades, startNano, endNano) != []
  }

  /** A query the time index was built for: bounds in nanoseconds, under 20 minutes long. */
  predicate SimpleQuery(startNano: int64, endNano: int64) {
    startNano > NANO_THRESHOLD && endNano > NANO_THRESHOLD && Span(startNano, endNano) < BUCKET_COUNT
  }

  lemma {:induction false} SubsequenceReflexive<T>(s: seq<T>)
    ensures Subsequence(s, s)
  {
    if s != [] {
      SubsequenceReflexive(s[..|s| - 1]);
    }
  }

  lemma RecentIsExact(log: Log, exchange: string, now: int64)
    requires now - HOT_NANOS > NANO_THRESHOLD
    ensures Cold(log, exchange, now - HOT_NANOS, now) == FlatAnswer(log, exchange, now - HOT_NANOS, now)
  {
    assert Span(now - HOT_NANOS, now) == 120;
    ColdIsFlatAnswer(log, exchange, now - HOT_NANOS, now);
  }

  lemma EmptyLogEmptyBucket(bucket: Bucket, b: int)
    requires Represents(bucket, [], b)
    ensures bucket == map[]
  {
    forall ex: string ensures ex !in bucket {
      assert SliceIs(bucket, ex, BucketContent([], ex, b));
    }
    assert bucket.Keys == {};
  }

  lemma WalkEnds(start: int, end: int, n: nat)
    requires 0 <= start < BUCKET_COUNT && 0 <= end < BUCKET_COUNT && 0 < n <= WalkLength(start, end)
    ensures (start + n - 1) % BUCKET_COUNT == end <==> n == WalkLength(start, end)
    ensures ((start + n - 1) % BUCKET_COUNT + 1) % BUCKET_COUNT == (start + n) % BUCKET_COUNT
  {
    OneLap(start + n - 1);
    OneLap(end - start);
    OneLap((start + n - 1) % BUCKET_COUNT + 1);
    OneLap(start + n);
  }
}
