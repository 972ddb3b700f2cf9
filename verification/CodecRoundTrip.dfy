/** The compressor end to end on values: names, symbols and packed sides, the decoder, and
    exactly which time-sorted lists come back faithfully. */
module CodecRoundTrip {
  import opened Trades
  import opened BinaryFrame
  import opened DeltaCodec

  // ----- names -----

  function ExchangeCode(name: string): byte {
    if name == "binance" then 0 else if name == "bybit" then 1 else if name == "okx" then 2
    else if name == "kucoin" then 3 else if name == "gate" then 4 else if name == "phemex" then 5 else 0
  }

  function MarketCode(name: string): byte {
    if name == "spot" then 0 else if name == "futures" then 1 else if name == "margin" then 2 else 0
  }

  /** Entry of a name table, or the empty name when the index is outside the data or the table. */
  function NameAt(names: seq<string>, codes: seq<byte>, i: nat): string {
    if i < |codes| && codes[i] < |names| then names[codes[i]] else ""
  }

  lemma ExchangeNameRoundTrip(name: string, codes: seq<byte>, i: nat)
    requires i < |codes| && codes[i] == ExchangeCode(name)
    ensures NameAt(EXCHANGES, codes, i) == name <==> name in EXCHANGES
  {
  }

  lemma MarketNameRoundTrip(name: string, codes: seq<byte>, i: nat)
    requires i < |codes| && codes[i] == MarketCode(name)
    ensures NameAt(MARKETS, codes, i) == name <==> name in MARKETS
  {
  }

  // ----- sides, one bit each -----

  function Pow2(k: nat): (p: nat)
    ensures p >= 1
  {
    if k == 0 then 1 else 2 * Pow2(k - 1)
  }

  /** `(b >> k) & 1 == 1` */
  predicate Bit(b: nat, k: nat) {
    if k == 0 then b % 2 == 1 else Bit(b / 2, k - 1)
  }

  /** `b | (1 << k)` on a number of `width` bits */
  function OrBit(b: nat, k: nat, width: nat): (r: nat)
    requires k < width && b < Pow2(width)
    ensures r < Pow2(width)
  {
    EvenBound(b, width);
    if k == 0 then b / 2 * 2 + 1 else OrBit(b / 2, k - 1, width - 1) * 2 + b % 2
  }

  lemma EvenBound(b: nat, width: nat)
    requires width > 0 && b < Pow2(width)
    ensures Pow2(width) == 2 * Pow2(width - 1) && b / 2 < Pow2(width - 1) && b / 2 * 2 + 1 < Pow2(width)
  {
  }

  lemma {:induction false} OrBitSetsOneBit(b: nat, k: nat, width: nat, j: nat)
    requires k < width && b < Pow2(width)
    ensures Bit(OrBit(b, k, width), j) <==> j == k || Bit(b, j)
  {
    if k > 0 && j > 0 {
      OrBitSetsOneBit(b / 2, k - 1, width - 1, j - 1);
    }
  }

  lemma {:induction false} ZeroHasNoBits(k: nat)
    ensures !Bit(0, k)
  {
    if k > 0 {
      ZeroHasNoBits(k - 1);
    }
  }

  lemma EightBits()
    ensures Pow2(8) == 256
  {
    assert Pow2(8) == 2 * (2 * (2 * (2 * Pow2(4))));
  }

  function SetBit(b: byte, k: nat): byte
    requires k < 8
  {
    EightBits();
    OrBit(b, k, 8)
  }

  function PackedLength(n: nat): nat {
    (n + 7) / 8
  }

  /** The side bytes after the first `n` of `sides` have been packed. */
  function PackSides(sides: seq<string>, n: nat): (bytes: seq<byte>)
    requires n <= |sides|
    ensures |bytes| == PackedLength(|sides|)
  {
    if n == 0 then seq(PackedLength(|sides|), _ => 0)
    else
      var bytes := PackSides(sides, n - 1);
      if sides[n - 1] == "sell" then bytes[(n - 1) / 8 := SetBit(bytes[(n - 1) / 8], (n - 1) % 8)] else bytes
  }

  function SideAt(bytes: seq<byte>, i: nat): string {
    if i / 8 < |bytes| && Bit(bytes[i / 8], i % 8) then "sell" else "buy"
  }

  lemma {:induction false} PackedBits(sides: seq<string>, n: nat, i: nat)
    requires n <= |sides| && i < 8 * PackedLength(|sides|)
    ensures Bit(PackSides(sides, n)[i / 8], i % 8) <==> i < n && sides[i] == "sell"
  {
    if n == 0 {
      assert PackSides(sides, 0)[i / 8] == 0;
      ZeroHasNoBits(i % 8);
    } else {
      PackedBits(sides, n - 1, i);
      SamePlace(i, n - 1);
      EightBits();
      OrBitSetsOneBit(PackSides(sides, n - 1)[(n - 1) / 8], (n - 1) % 8, 8, i % 8);
    }
  }

  lemma SamePlace(i: nat, j: nat)
    ensures i / 8 == j / 8 && i % 8 == j % 8 <==> i == j
  {
  }

  lemma SideRoundTrip(sides: seq<string>, i: nat)
    requires i < |sides|
    ensures SideAt(PackSides(sides, |sides|), i) == sides[i] <==> sides[i] in ["buy", "sell"]
  {
    PackedBits(sides, |sides|, i);
  }

  // ----- symbols -----

  predicate Distinct(unique: seq<string>) {
    forall i, j :: 0 <= i < j < |unique| ==> unique[i] != unique[j]
  }

  /** `unique` lists the symbols of the trades, each once, in any order (Go's map order). */
  predicate Lists(unique: seq<string>, trades: seq<TradeEvent>) {
    && Distinct(unique)
    && (forall i :: 0 <= i < |trades| ==> trades[i].symbol in unique)
    && (forall i :: 0 <= i < |unique| ==> exists j :: 0 <= j < |trades| && trades[j].symbol == unique[i])
  }

  function SymbolCode(unique: seq<string>, symbol: string): byte {
    if symbol in IndexMap(unique) then IndexMap(unique)[symbol] else 0
  }

  lemma {:induction false} SymbolCodeValue(unique: seq<string>, i: nat)
    requires Distinct(unique) && i < |unique|
    ensures unique[i] in IndexMap(unique) && SymbolCode(unique, unique[i]) == i % 256
  {
    var init := unique[..|unique| - 1];
    if i < |init| {
      SymbolCodeValue(init, i);
      assert init[i] == unique[i];
    }
  }

  /** The name a symbol's code stands for when read back. */
  function SymbolAgain(unique: seq<string>, symbol: string): string {
    NameAt(unique, [SymbolCode(unique, symbol)], 0)
  }

  lemma SymbolAgainValue(unique: seq<string>, i: nat)
    requires Distinct(unique) && i < |unique|
    ensures SymbolAgain(unique, unique[i]) == unique[i % 256]
  {
    SymbolCodeValue(unique, i);
  }

  /** All symbols come back exactly when the byte index does not run over. */
  lemma SymbolsRoundTrip(unique: seq<string>)
    requires Distinct(unique)
    ensures (forall i :: 0 <= i < |unique| ==> SymbolAgain(unique, unique[i]) == unique[i]) <==> |unique| <= 256
  {
    if |unique| > 256 {
      SymbolAgainValue(unique, 256);
      assert unique[0] != unique[256];
    } else {
      forall i | 0 <= i < |unique| ensures SymbolAgain(unique, unique[i]) == unique[i] {
        SymbolAgainValue(unique, i);
      }
    }
  }

  // ----- encoding and decoding -----

  function Sides(trades: seq<TradeEvent>): seq<string> {
    seq(|trades|, i requires 0 <= i < |trades| => trades[i].side)
  }

  function Encode(trades: seq<TradeEvent>, unique: seq<string>): (c: CompressedData)
    requires |trades| > 0 && trades[0].price.Num?
  {
    var d := Run(trades, |trades|);
    CompressedData(
      d.basePrice, d.baseTime, SCALE, |trades|, d.prices, d.times, d.volumes,
      seq(|trades|, i requires 0 <= i < |trades| => SymbolCode(unique, trades[i].symbol)),
      seq(|trades|, i requires 0 <= i < |trades| => ExchangeCode(trades[i].exchange)),
      seq(|trades|, i requires 0 <= i < |trades| => MarketCode(trades[i].marketType)),
      PackSides(Sides(trades), |trades|))
  }

  function DecodeTrade(c: CompressedData, unique: seq<string>, i: nat): TradeEvent
    requires i < |c.priceDeltas| && i < |c.timeDeltas| && i < |c.volumes|
  {
    TradeEvent(
      NameAt(EXCHANGES, c.exchanges, i), NameAt(MARKETS, c.marketTypes, i), NameAt(unique, c.symbols, i), "",
      if c.priceScale == 0 then NotANumber else Num(c.basePrice + c.priceDeltas[i] as real / c.priceScale as real),
      Num(c.volumes[i] as real / MICRO), SideAt(c.sides, i),
      DecodedTime(c.baseTime, c.timeDeltas[i]), 0, 0, false, "")
  }

  /** Decoding crashes when the count is negative or exceeds an array. */
  datatype Decoded = Crash | Decoded(trades: seq<TradeEvent>)

  function Decode(c: CompressedData, unique: seq<string>): Decoded {
    if c.count < 0 || c.count > |c.priceDeltas| || c.count > |c.timeDeltas| || c.count > |c.volumes| then Crash
    else Decoded(seq(c.count, i requires 0 <= i < c.count => DecodeTrade(c, unique, i)))
  }

  /** The list the decoder makes of an encoded list. */
  function Image(trades: seq<TradeEvent>, unique: seq<string>): (image: seq<TradeEvent>)
    requires |trades| > 0 && trades[0].price.Num?
    ensures |image| == |trades|
  {
    RunShape(trades, |trades|);
    seq(|trades|, i requires 0 <= i < |trades| => DecodeTrade(Encode(trades, unique), unique, i))
  }

  lemma EncodeIsWellShaped(trades: seq<TradeEvent>, unique: seq<string>)
    requires 0 < |trades| <= MAX32 && trades[0].price.Num?
    ensures WellShaped(Encode(trades, unique))
    ensures Decode(Encode(trades, unique), unique) == Decoded(Image(trades, unique))
  {
    RunShape(trades, |trades|);
  }

  // What a trade's decoding is, field by field.

  lemma ImagePrice(trades: seq<TradeEvent>, unique: seq<string>, i: nat)
    requires i < |trades| && trades[0].price.Num?
    ensures |Run(trades, |trades|).prices| == |trades|
    ensures Image(trades, unique)[i].price
            == Num(DecodedPrice(Run(trades, |trades|).basePrice, Run(trades, |trades|).prices[i]))
  {
    RunShape(trades, |trades|);
  }

  lemma ImageTime(trades: seq<TradeEvent>, unique: seq<string>, i: nat)
    requires i < |trades| && trades[0].price.Num?
    ensures |Run(trades, |trades|).times| == |trades|
    ensures Image(trades, unique)[i].timestamp
            == DecodedTime(Run(trades, |trades|).baseTime, Run(trades, |trades|).times[i])
  {
    RunShape(trades, |trades|);
  }

  lemma ImageQuantity(trades: seq<TradeEvent>, unique: seq<string>, i: nat)
    requires i < |trades| && trades[0].price.Num?
    ensures |Run(trades, |trades|).volumes| == |trades| && 0 <= Run(trades, |trades|).volumes[i] < 0x1_0000_0000
    ensures Image(trades, unique)[i].quantity == Num(Run(trades, |trades|).volumes[i] as real / MICRO)
  {
    RunShape(trades, |trades|);
  }

  lemma ImageSymbol(trades: seq<TradeEvent>, unique: seq<string>, i: nat)
    requires i < |trades| && trades[0].price.Num?
    ensures Image(trades, unique)[i].symbol == SymbolAgain(unique, trades[i].symbol)
  {
  }

  predicate KnownNames(t: TradeEvent) {
    t.exchange in EXCHANGES && t.marketType in MARKETS && t.side in ["buy", "sell"]
  }

  lemma ImageNames(trades: seq<TradeEvent>, unique: seq<string>, i: nat)
    requires i < |trades| && trades[0].price.Num?
    ensures var d := Image(trades, unique)[i];
            d.exchange == trades[i].exchange && d.marketType == trades[i].marketType && d.side == trades[i].side
            <==> KnownNames(trades[i])
  {
    var c := Encode(trades, unique);
    ExchangeNameRoundTrip(trades[i].exchange, c.exchanges, i);
    MarketNameRoundTrip(trades[i].marketType, c.marketTypes, i);
    SideRoundTrip(Sides(trades), i);
  }

  /** The fields the codec does not store come back empty. */
  predicate Bare(t: TradeEvent) {
    t.tradeID == "" && t.collectedAt == 0 && t.triggerTime == 0 && !t.isBuyerMaker && t.quoteQty == ""
  }

  lemma ImageIsBare(trades: seq<TradeEvent>, unique: seq<string>, i: nat)
    requires i < |trades| && trades[0].price.Num?
    ensures Bare(Image(trades, unique)[i])
  {
  }
}
