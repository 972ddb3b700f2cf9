/** The compressor's promises: the exact condition for a faithful round trip, stability of a
    decoded list under recompression, and the time bounds the block ring relies on. */
module CodecTheorems {
  import opened Trades
  import opened BinaryFrame
  import opened DeltaCodec
  import opened CodecRoundTrip

  // ----- when the round trip is faithful -----

  predicate QuantityClose(t: TradeEvent, decoded: real) {
    t.quantity.Num? && -1.0 < (t.quantity.v - decoded) * MICRO < 1.0
  }

  /** Less than one micro-unit lost in price and quantity, less than a million time units
      cut off, everything else the codec stores unchanged. */
  predicate Faithful(t: TradeEvent, d: TradeEvent) {
    && d.price.Num? && PriceClose(t, d.price.v)
    && d.quantity.Num? && QuantityClose(t, d.quantity.v)
    && TimeClose(t, d.timestamp)
    && d.symbol == t.symbol && d.exchange == t.exchange && d.marketType == t.marketType && d.side == t.side
  }

  predicate QuantityFits(quantity: real) {
    -1.0 < quantity * MICRO < 4294967296.0
  }

  /** The regime of the codec, checkable on the sorted input. */
  predicate Encodable(trades: seq<TradeEvent>, unique: seq<string>)
    requires |trades| > 0 && trades[0].price.Num?
  {
    && AllParse(trades)
    && PricesFit(trades, |trades|) && TimesFit(trades, |trades|)
    && |unique| <= 256
    && forall i :: 0 <= i < |trades| ==> QuantityFits(trades[i].quantity.v) && KnownNames(trades[i])
  }

  predicate AllFaithful(trades: seq<TradeEvent>, image: seq<TradeEvent>)
    requires |image| == |trades|
  {
    forall i :: 0 <= i < |trades| ==> Faithful(trades[i], image[i])
  }

  lemma VolumeRoundTrip(quantity: real)
    ensures -1.0 < (quantity - VolumeCode(quantity) as real / MICRO) * MICRO < 1.0 <==> QuantityFits(quantity)
  {
    var x := quantity * MICRO;
    assert (quantity - VolumeCode(quantity) as real / MICRO) * MICRO == x - VolumeCode(quantity) as real;
    VolumeOfProduct(x);
  }

  lemma VolumeOfProduct(x: real)
    ensures -1.0 < x - (Trunc(x) % 0x1_0000_0000) as real < 1.0 <==> -1.0 < x < 4294967296.0
  {
    TruncIsClose(x);
    if -1.0 < x < 4294967296.0 {
      assert 0 <= Trunc(x) < 0x1_0000_0000;
    }
  }

  lemma {:induction false} VolumesOfRun(trades: seq<TradeEvent>, n: nat)
    requires n <= |trades| && |trades| > 0 && trades[0].price.Num?
    ensures var d := Run(trades, n);
            && |d.volumes| == n
            && forall i :: 0 <= i < n && Parses(trades[i]) ==> d.volumes[i] == VolumeCode(trades[i].quantity.v)
  {
    if n > 0 {
      VolumesOfRun(trades, n - 1);
    }
  }

  lemma PriceFieldClose(trades: seq<TradeEvent>, unique: seq<string>, i: nat)
    requires i < |trades| && AllParse(trades) && PricesFit(trades, |trades|)
    ensures var d := Image(trades, unique)[i]; d.price.Num? && PriceClose(trades[i], d.price.v)
  {
    ImagePrice(trades, unique, i);
    NoPriceRebase(trades, |trades|);
    TruncatedDeltaIsClose(trades[0].price.v, trades[i].price.v);
  }

  lemma TimeFieldClose(trades: seq<TradeEvent>, unique: seq<string>, i: nat)
    requires i < |trades| && AllParse(trades) && SortedByTime(trades) && TimesFit(trades, |trades|)
    ensures Image(trades, unique)[i].timestamp == Floored(trades[0].timestamp, trades[i].timestamp)
    ensures TimeClose(trades[i], Image(trades, unique)[i].timestamp)
  {
    ImageTime(trades, unique, i);
    NoTimeRebase(trades, |trades|);
    SmallTimeDelta(trades[0].timestamp, trades[i].timestamp);
  }

  lemma QuantityField(trades: seq<TradeEvent>, unique: seq<string>, i: nat)
    requires i < |trades| && AllParse(trades)
    ensures Image(trades, unique)[i].quantity == Num(VolumeCode(trades[i].quantity.v) as real / MICRO)
  {
    ImageQuantity(trades, unique, i);
    VolumesOfRun(trades, |trades|);
  }

  lemma SymbolField(trades: seq<TradeEvent>, unique: seq<string>, i: nat)
    requires i < |trades| && trades[0].price.Num? && Lists(unique, trades) && |unique| <= 256
    ensures Image(trades, unique)[i].symbol == trades[i].symbol
  {
    ImageSymbol(trades, unique, i);
    SymbolsRoundTrip(unique);
    var k :| 0 <= k < |unique| && unique[k] == trades[i].symbol;
    assert SymbolAgain(unique, unique[k]) == unique[k];
  }

  lemma EncodableIsFaithful(trades: seq<TradeEvent>, unique: seq<string>)
    requires |trades| > 0 && trades[0].price.Num? && SortedByTime(trades) && Lists(unique, trades)
    requires Encodable(trades, unique)
    ensures AllFaithful(trades, Image(trades, unique))
  {
    forall i | 0 <= i < |trades| ensures Faithful(trades[i], Image(trades, unique)[i]) {
      PriceFieldClose(trades, unique, i);
      TimeFieldClose(trades, unique, i);
      QuantityField(trades, unique, i);
      VolumeRoundTrip(trades[i].quantity.v);
      ImageNames(trades, unique, i);
      SymbolField(trades, unique, i);
    }
  }

  // Each way of leaving the regime spoils some trade.

  lemma UnfitPricesShow(trades: seq<TradeEvent>, unique: seq<string>)
    requires |trades| > 0 && AllParse(trades) && !PricesFit(trades, |trades|)
    ensures !AllFaithful(trades, Image(trades, unique))
  {
    var j := PriceRebaseLosesOne(trades, |trades|);
    ImagePrice(trades, unique, j);
    assert !Faithful(trades[j], Image(trades, unique)[j]);
  }

  lemma UnfitTimesShow(trades: seq<TradeEvent>, unique: seq<string>)
    requires |trades| > 0 && AllParse(trades) && SortedByTime(trades) && !TimesFit(trades, |trades|)
    ensures !AllFaithful(trades, Image(trades, unique))
  {
    var j := LateTimeLosesOne(trades, |trades|);
    ImageTime(trades, unique, j);
    assert !Faithful(trades[j], Image(trades, unique)[j]);
  }

  lemma TooManySymbolsShow(trades: seq<TradeEvent>, unique: seq<string>)
    requires |trades| > 0 && trades[0].price.Num? && Lists(unique, trades) && |unique| > 256
    ensures !AllFaithful(trades, Image(trades, unique))
  {
    var i :| 0 <= i < |trades| && trades[i].symbol == unique[256];
    ImageSymbol(trades, unique, i);
    SymbolAgainValue(unique, 256);
    assert unique[0] != unique[256];
    assert !Faithful(trades[i], Image(trades, unique)[i]);
  }

  lemma FaithfulIsEncodable(trades: seq<TradeEvent>, unique: seq<string>)
    requires |trades| > 0 && trades[0].price.Num? && SortedByTime(trades) && Lists(unique, trades)
    requires AllFaithful(trades, Image(trades, unique))
    ensures Encodable(trades, unique)
  {
    var image, n := Image(trades, unique), |trades|;
    forall i | 0 <= i < n ensures Parses(trades[i]) {
      assert Faithful(trades[i], image[i]);
    }
    if !PricesFit(trades, n) { UnfitPricesShow(trades, unique); }
    if !TimesFit(trades, n) { UnfitTimesShow(trades, unique); }
    if |unique| > 256 { TooManySymbolsShow(trades, unique); }
    forall i | 0 <= i < n ensures QuantityFits(trades[i].quantity.v) && KnownNames(trades[i]) {
      assert Faithful(trades[i], image[i]);
      QuantityField(trades, unique, i);
      VolumeRoundTrip(trades[i].quantity.v);
      ImageNames(trades, unique, i);
    }
  }

  /** Compressing and decompressing is faithful, trade by trade, exactly in the codec's regime:
      outside it some trade comes back wrong. */
  lemma RoundTripIffEncodable(trades: seq<TradeEvent>, unique: seq<string>)
    requires |trades| > 0 && trades[0].price.Num? && SortedByTime(trades) && Lists(unique, trades)
    ensures AllFaithful(trades, Image(trades, unique)) <==> Encodable(trades, unique)
  {
    if Encodable(trades, unique) {
      EncodableIsFaithful(trades, unique);
    }
    if AllFaithful(trades, Image(trades, unique)) {
      FaithfulIsEncodable(trades, unique);
    }
  }

  /** The same through the bytes: reading back the written frame and decoding it. */
  lemma BytesRoundTrip(trades: seq<TradeEvent>, unique: seq<string>)
    requires 0 < |trades| <= MAX32 && trades[0].price.Num? && WellNamed(unique)
    ensures var c := Encode(trades, unique);
            && DecodeFrame(EncodeFrame(c, unique)) == Got((c, SymbolMapping(unique, IndexMap(unique))), [])
            && Decode(c, unique) == Decoded(Image(trades, unique))
  {
    EncodeIsWellShaped(trades, unique);
    FrameRoundTrip(Encode(trades, unique), unique);
  }

  // ----- a decoded list is a fixed point of the codec -----

  predicate IsWhole(x: real) {
    x.Floor as real == x
  }

  lemma WholeDifference(x: real, y: real)
    requires IsWhole(x) && IsWhole(y)
    ensures IsWhole(x - y)
  {
    assert x - y == (x.Floor - y.Floor) as real;
  }

  lemma WholeTrunc(x: real)
    requires IsWhole(x)
    ensures Trunc(x) as real == x
  {
    if x < 0.0 {
      assert -x == (-x.Floor) as real;
    }
  }

  /** A whole number of units apart from another price on the grid: the delta is exact. */
  lemma PriceOnGridIsExact(base: real, first: real, price: real)
    requires IsWhole((price - base) * MICRO) && IsWhole((first - base) * MICRO)
    ensures DecodedPrice(first, Trunc(PriceDelta(first, price))) == price
  {
    WholeDifference((price - base) * MICRO, (first - base) * MICRO);
    assert PriceDelta(first, price) == (price - base) * MICRO - (first - base) * MICRO;
    WholeTrunc(PriceDelta(first, price));
  }

  lemma QuantityOnGridIsExact(quantity: real)
    requires IsWhole(quantity * MICRO) && 0.0 <= quantity * MICRO < 4294967296.0
    ensures VolumeCode(quantity) as real / MICRO == quantity
  {
    WholeTrunc(quantity * MICRO);
    TruncIsClose(quantity * MICRO);
    assert 0 <= Trunc(quantity * MICRO) < 0x1_0000_0000;
  }

  lemma DecodedIsOnGrid(base: real, delta: int, volume: int)
    ensures (DecodedPrice(base, delta) - base) * MICRO == delta as real && IsWhole(delta as real)
    ensures (volume as real / MICRO) * MICRO == volume as real && IsWhole(volume as real)
  {
  }

  /** A trade that carries only what the codec stores, on the grids anchored at `base` and `t0`. */
  predicate OnGrid(t: TradeEvent, base: real, t0: int64) {
    && t.price.Num? && IsWhole((t.price.v - base) * MICRO)
    && t.quantity.Num? && IsWhole(t.quantity.v * MICRO) && 0.0 <= t.quantity.v * MICRO < 4294967296.0
    && t.timestamp >= t0 && (t.timestamp - t0) % NANOS_PER_MILLI == 0
    && Bare(t)
  }

  predicate AllKnown(trades: seq<TradeEvent>) {
    forall i :: 0 <= i < |trades| ==> KnownNames(trades[i])
  }

  lemma ImageNamesFixed(trades: seq<TradeEvent>, unique: seq<string>, i: nat)
    requires i < |trades| && trades[0].price.Num? && KnownNames(trades[i])
    ensures var d := Image(trades, unique)[i];
            d.exchange == trades[i].exchange && d.marketType == trades[i].marketType && d.side == trades[i].side
    ensures KnownNames(Image(trades, unique)[i])
  {
    ImageNames(trades, unique, i);
  }

  predicate AllOnGrid(trades: seq<TradeEvent>, base: real, t0: int64) {
    forall i :: 0 <= i < |trades| ==> OnGrid(trades[i], base, t0)
  }

  lemma GridParses(trades: seq<TradeEvent>, base: real, t0: int64)
    requires AllOnGrid(trades, base, t0)
    ensures AllParse(trades)
  {
    forall k | 0 <= k < |trades| ensures Parses(trades[k]) {
      assert OnGrid(trades[k], base, t0);
    }
  }

  predicate PairwiseFit(trades: seq<TradeEvent>) {
    forall i, j :: 0 <= i < |trades| && 0 <= j < |trades| ==> PairFits(trades[i].price, trades[j].price)
  }

  predicate PairFits(p: Number, q: Number) {
    p.Num? && q.Num? ==> -32767.0 <= (p.v - q.v) * MICRO <= 32767.0
  }

  lemma PairwiseFitsFirst(trades: seq<TradeEvent>)
    requires |trades| > 0 && AllParse(trades) && PairwiseFit(trades)
    ensures PricesFit(trades, |trades|)
  {
    forall i | 0 <= i < |trades| ensures PriceFits(trades[0].price.v, trades[i].price.v) {
      assert PairFits(trades[i].price, trades[0].price);
    }
  }

  lemma GridPrice(trades: seq<TradeEvent>, unique: seq<string>, base: real, i: nat)
    requires i < |trades| && AllParse(trades) && PricesFit(trades, |trades|)
    requires IsWhole((trades[0].price.v - base) * MICRO) && IsWhole((trades[i].price.v - base) * MICRO)
    ensures Image(trades, unique)[i].price == trades[i].price
  {
    ImagePrice(trades, unique, i);
    NoPriceRebase(trades, |trades|);
    PriceOnGridIsExact(base, trades[0].price.v, trades[i].price.v);
  }

  lemma GridTime(trades: seq<TradeEvent>, unique: seq<string>, t0: int64, i: nat)
    requires i < |trades| && AllParse(trades) && SortedByTime(trades) && TimesFit(trades, |trades|)
    requires t0 <= trades[0].timestamp && (trades[0].timestamp - t0) % NANOS_PER_MILLI == 0
    requires (trades[i].timestamp - t0) % NANOS_PER_MILLI == 0
    ensures Image(trades, unique)[i].timestamp == trades[i].timestamp
  {
    TimeFieldClose(trades, unique, i);
    GridStep(trades[0].timestamp, trades[i].timestamp, t0);
  }

  lemma GridQuantity(trades: seq<TradeEvent>, unique: seq<string>, i: nat)
    requires i < |trades| && AllParse(trades)
    requires IsWhole(trades[i].quantity.v * MICRO) && 0.0 <= trades[i].quantity.v * MICRO < 4294967296.0
    ensures Image(trades, unique)[i].quantity == trades[i].quantity
  {
    QuantityField(trades, unique, i);
    QuantityOnGridIsExact(trades[i].quantity.v);
  }

  lemma SameTrade(t: TradeEvent, d: TradeEvent)
    requires d.price == t.price && d.quantity == t.quantity && d.timestamp == t.timestamp
    requires d.symbol == t.symbol && d.exchange == t.exchange && d.marketType == t.marketType && d.side == t.side
    requires Bare(t) && Bare(d)
    ensures d == t
  {
  }

  lemma GridIsFixedAt(trades: seq<TradeEvent>, unique: seq<string>, base: real, t0: int64, i: nat)
    requires i < |trades| && OnGrid(trades[0], base, t0) && OnGrid(trades[i], base, t0)
    requires AllParse(trades) && PricesFit(trades, |trades|) && KnownNames(trades[i])
    requires SortedByTime(trades) && TimesFit(trades, |trades|) && Lists(unique, trades) && |unique| <= 256
    ensures Image(trades, unique)[i] == trades[i]
  {
    GridPrice(trades, unique, base, i);
    GridTime(trades, unique, t0, i);
    GridQuantity(trades, unique, i);
    ImageNamesFixed(trades, unique, i);
    SymbolField(trades, unique, i);
    ImageIsBare(trades, unique, i);
    SameTrade(trades[i], Image(trades, unique)[i]);
  }

  /** Encoding a list that is already on the grid loses nothing at all. */
  lemma GridIsFixed(trades: seq<TradeEvent>, unique: seq<string>, base: real, t0: int64)
    requires |trades| > 0 && AllOnGrid(trades, base, t0) && AllParse(trades) && PairwiseFit(trades) && AllKnown(trades)
    requires SortedByTime(trades) && TimesFit(trades, |trades|) && Lists(unique, trades) && |unique| <= 256
    ensures Image(trades, unique) == trades
  {
    PairwiseFitsFirst(trades);
    forall i | 0 <= i < |trades| ensures Image(trades, unique)[i] == trades[i] {
      GridIsFixedAt(trades, unique, base, t0, i);
    }
  }

  lemma GridStep(a: int64, b: int64, t0: int64)
    requires t0 <= a <= b && (a - t0) % NANOS_PER_MILLI == 0 && (b - t0) % NANOS_PER_MILLI == 0
    ensures Floored(a, b) == b
  {
    var x, y := (a - t0) / NANOS_PER_MILLI, (b - t0) / NANOS_PER_MILLI;
    assert b - a == (y - x) * NANOS_PER_MILLI;
  }

  lemma FlooredIsOnGrid(t0: int64, t: int64)
    requires t0 <= t
    ensures Floored(t0, t) >= t0 && (Floored(t0, t) - t0) % NANOS_PER_MILLI == 0
  {
  }

  lemma FlooredIsMonotone(t0: int64, s: int64, t: int64)
    requires t0 <= s <= t
    ensures Floored(t0, s) <= Floored(t0, t) <= t
  {
  }

  lemma ImagePriceOnGrid(trades: seq<TradeEvent>, unique: seq<string>, i: nat)
    requires i < |trades| && AllParse(trades) && PricesFit(trades, |trades|)
    ensures var d := Image(trades, unique)[i]; d.price.Num? && IsWhole((d.price.v - trades[0].price.v) * MICRO)
  {
    ImagePrice(trades, unique, i);
    NoPriceRebase(trades, |trades|);
    DecodedIsOnGrid(trades[0].price.v, Run(trades, |trades|).prices[i], 0);
  }

  lemma ImageQuantityOnGrid(trades: seq<TradeEvent>, unique: seq<string>, i: nat)
    requires i < |trades| && AllParse(trades)
    ensures var d := Image(trades, unique)[i];
            d.quantity.Num? && IsWhole(d.quantity.v * MICRO) && 0.0 <= d.quantity.v * MICRO < 4294967296.0
  {
    ImageQuantity(trades, unique, i);
    DecodedIsOnGrid(0.0, 0, Run(trades, |trades|).volumes[i]);
  }

  lemma ImageIsOnGridAt(trades: seq<TradeEvent>, unique: seq<string>, i: nat)
    requires i < |trades| && SortedByTime(trades) && AllParse(trades)
    requires PricesFit(trades, |trades|) && TimesFit(trades, |trades|)
    ensures OnGrid(Image(trades, unique)[i], trades[0].price.v, trades[0].timestamp)
  {
    ImagePriceOnGrid(trades, unique, i);
    ImageQuantityOnGrid(trades, unique, i);
    TimeFieldClose(trades, unique, i);
    FlooredIsOnGrid(trades[0].timestamp, trades[i].timestamp);
    ImageIsBare(trades, unique, i);
  }

  /** What comes out of the codec is on the grid of its first trade. */
  lemma ImageIsOnGrid(trades: seq<TradeEvent>, unique: seq<string>)
    requires |trades| > 0 && trades[0].price.Num? && SortedByTime(trades)
    requires Encodable(trades, unique)
    ensures AllOnGrid(Image(trades, unique), trades[0].price.v, trades[0].timestamp)
    ensures AllKnown(Image(trades, unique))
  {
    forall i | 0 <= i < |trades| ensures OnGrid(Image(trades, unique)[i], trades[0].price.v, trades[0].timestamp) {
      ImageIsOnGridAt(trades, unique, i);
    }
    forall i | 0 <= i < |trades| ensures KnownNames(Image(trades, unique)[i]) {
      ImageNamesFixed(trades, unique, i);
    }
  }

  lemma TruncContracts(x: real, y: real, n: nat)
    requires -(n as real) <= x - y <= n as real
    ensures -(n as int) <= Trunc(x) - Trunc(y) <= n
  {
    TruncIsClose(x);
    TruncIsClose(y);
  }

  /** Cutting towards the first price never pushes two prices further apart. */
  lemma ImageFitsPairwise(trades: seq<TradeEvent>, unique: seq<string>)
    requires |trades| > 0 && AllParse(trades) && PairwiseFit(trades)
    ensures PairwiseFit(Image(trades, unique))
  {
    var image, base := Image(trades, unique), trades[0].price.v;
    PairwiseFitsFirst(trades);
    NoPriceRebase(trades, |trades|);
    forall i, j | 0 <= i < |image| && 0 <= j < |image| ensures PairFits(image[i].price, image[j].price) {
      assert PairFits(trades[i].price, trades[j].price);
      ImagePrice(trades, unique, i);
      ImagePrice(trades, unique, j);
      TruncatedPairFits(base, trades[i].price.v, trades[j].price.v);
    }
  }

  lemma TruncatedPairFits(base: real, p: real, q: real)
    requires PairFits(Num(p), Num(q))
    ensures PairFits(Num(DecodedPrice(base, Trunc(PriceDelta(base, p)))), Num(DecodedPrice(base, Trunc(PriceDelta(base, q)))))
  {
    var x, y := PriceDelta(base, p), PriceDelta(base, q);
    assert x - y == (p - q) * MICRO;
    TruncContracts(x, y, 32767);
    DecodedIsOnGrid(base, Trunc(x), 0);
    DecodedIsOnGrid(base, Trunc(y), 0);
    assert (DecodedPrice(base, Trunc(x)) - DecodedPrice(base, Trunc(y))) * MICRO == (Trunc(x) - Trunc(y)) as real;
  }

  lemma ImageIsSorted(trades: seq<TradeEvent>, unique: seq<string>)
    requires |trades| > 0 && AllParse(trades) && SortedByTime(trades) && TimesFit(trades, |trades|)
    ensures SortedByTime(Image(trades, unique)) && TimesFit(Image(trades, unique), |trades|)
  {
    var image := Image(trades, unique);
    forall i, j | 0 <= i < j < |image| ensures image[i].timestamp <= image[j].timestamp {
      TimeFieldClose(trades, unique, i);
      TimeFieldClose(trades, unique, j);
      FlooredIsMonotone(trades[0].timestamp, trades[i].timestamp, trades[j].timestamp);
    }
    forall i | 0 <= i < |image|
      ensures image[i].timestamp - image[0].timestamp < 65536 * NANOS_PER_MILLI
    {
      TimeFieldClose(trades, unique, 0);
      TimeFieldClose(trades, unique, i);
    }
  }

  /** Decoding, re-encoding in any order a sort may produce and with any symbol order, and
      decoding again returns the list that went in: compressing twice loses no more than once. */
  lemma RecompressionIsLossless(trades: seq<TradeEvent>, unique: seq<string>,
                                again: seq<TradeEvent>, unique': seq<string>)
    requires |trades| > 0 && trades[0].price.Num? && SortedByTime(trades) && Lists(unique, trades)
    requires Encodable(trades, unique) && PairwiseFit(trades)
    requires multiset(again) == multiset(Image(trades, unique)) && SortedByTime(again) && Lists(unique', again)
    ensures |again| == |trades| && again[0].price.Num? && Image(again, unique') == again
  {
    var image := Image(trades, unique);
    ImageIsOnGrid(trades, unique);
    ImageFitsPairwise(trades, unique);
    ImageIsSorted(trades, unique);
    assert |multiset(again)| == |again| && |multiset(image)| == |image|;
    ReorderedStaysOnGrid(image, again, trades[0].price.v, trades[0].timestamp);
    SameSymbols(trades, unique, again, unique');
    GridIsFixed(again, unique', trades[0].price.v, trades[0].timestamp);
  }

  lemma ReorderedStaysOnGrid(image: seq<TradeEvent>, again: seq<TradeEvent>, base: real, t0: int64)
    requires AllKnown(image)
    requires |image| > 0 && AllOnGrid(image, base, t0) && PairwiseFit(image) && TimesFit(image, |image|)
    requires SortedByTime(image) && multiset(again) == multiset(image) && |again| == |image|
    ensures AllOnGrid(again, base, t0) && AllParse(again) && AllKnown(again) && PairwiseFit(again) && TimesFit(again, |again|)
  {
    forall i | 0 <= i < |again| ensures again[i] in image {
      assert again[i] in multiset(again);
    }
    GridParses(image, base, t0);
    assert image[0].timestamp <= again[0].timestamp;
  }

  lemma ImageSymbols(trades: seq<TradeEvent>, unique: seq<string>, t: TradeEvent)
    requires |trades| > 0 && trades[0].price.Num? && Lists(unique, trades) && |unique| <= 256
    requires t in Image(trades, unique)
    ensures t.symbol in unique
  {
    var k :| 0 <= k < |Image(trades, unique)| && Image(trades, unique)[k] == t;
    SymbolField(trades, unique, k);
  }

  lemma SameSymbols(trades: seq<TradeEvent>, unique: seq<string>, again: seq<TradeEvent>, unique': seq<string>)
    requires |trades| > 0 && trades[0].price.Num? && Lists(unique, trades) && |unique| <= 256
    requires multiset(again) == multiset(Image(trades, unique)) && Lists(unique', again)
    ensures |unique'| <= 256
  {
    forall i | 0 <= i < |again| ensures again[i].symbol in unique {
      assert again[i] in multiset(again);
      ImageSymbols(trades, unique, again[i]);
    }
    DistinctIsNoLonger(unique', unique);
  }

  lemma {:induction false} DistinctIsNoLonger(xs: seq<string>, ys: seq<string>)
    requires Distinct(xs) && forall s :: s in xs ==> s in ys
    ensures |xs| <= |ys|
  {
    if xs != [] {
      var init, last := xs[..|xs| - 1], xs[|xs| - 1];
      assert last in xs && last in ys;
      var k :| 0 <= k < |ys| && ys[k] == last;
      var rest := ys[..k] + ys[k + 1..];
      forall s | s in init ensures s in rest {
        assert s in xs && s in ys;
        var i :| 0 <= i < |ys| && ys[i] == s;
        assert i != k;
        assert i < k ==> rest[i] == s;
        assert i > k ==> rest[i - 1] == s;
      }
      DistinctIsNoLonger(init, rest);
    }
  }
}
