/** The trades collected around one listing, in one slice per exchange and market. */
module CollectionEvents {
  import opened Trades

  const EXCHANGE_MARKETS: seq<string> :=
    ["binance_spot", "binance_futures", "bybit_spot", "bybit_futures", "okx_spot", "okx_futures",
     "kucoin_spot", "kucoin_futures", "gate_spot", "gate_futures", "phemex_spot", "phemex_futures"]

  /** The position of a key in EXCHANGE_MARKETS; 12 for any other string. */
  function KeyIndex(key: string): nat {
    match key
    case "binance_spot" => 0
    case "binance_futures" => 1
    case "bybit_spot" => 2
    case "bybit_futures" => 3
    case "okx_spot" => 4
    case "okx_futures" => 5
    case "kucoin_spot" => 6
    case "kucoin_futures" => 7
    case "gate_spot" => 8
    case "gate_futures" => 9
    case "phemex_spot" => 10
    case "phemex_futures" => 11
    case _ => 12
  }

  function UpperChar(c: char): char {
    if 'a' <= c <= 'z' then (c as int - 32) as char else c
  }

  function ToUpper(s: string): string {
    seq(|s|, i requires 0 <= i < |s| => UpperChar(s[i]))
  }

  predicate HasPrefix(s: string, x: string) {
    |x| <= |s| && s[..|x|] == x
  }

  predicate HasSuffix(s: string, x: string) {
    |x| <= |s| && s[|s| - |x|..] == x
  }

  function TrimSuffix(s: string, x: string): string {
    if HasSuffix(s, x) then s[..|s| - |x|] else s
  }

  /** The form of Phemex spot symbols. */
  predicate IsPhemexSpot(target: string, trade: string) {
    HasPrefix(trade, "S") && |trade| > 1 && HasSuffix(trade[1..], "USDT") && TrimSuffix(trade[1..], "USDT") == target
  }

  /** The tests made on upper-cased names, in the code's order. */
  predicate MatchesUpper(target: string, trade: string) {
    || target == trade
    || trade == target + "USDT"
    || trade == target + "-USDT"
    || trade == target + "_USDT"
    || (HasSuffix(trade, "USDT") && TrimSuffix(TrimSuffix(TrimSuffix(trade, "USDT"), "-"), "_") == target)
    || IsPhemexSpot(target, trade)
  }

  /** Whether a trade's symbol stands for the listed symbol. */
  predicate IsTargetSymbol(symbol: string, tradeSymbol: string) {
    MatchesUpper(ToUpper(symbol), ToUpper(tradeSymbol))
  }

  lemma TrimUndone(s: string, x: string)
    ensures s == TrimSuffix(s, x) || s == TrimSuffix(s, x) + x
  {
    if HasSuffix(s, x) {
      TrimmedOff(s, x);
    }
  }

  lemma TrimAdded(s: string, x: string)
    ensures HasSuffix(s + x, x) && TrimSuffix(s + x, x) == s
  {
    assert (s + x)[|s|..] == x && (s + x)[..|s|] == s;
  }

  lemma UntrimmedPair(target: string, trade: string)
    requires HasSuffix(trade, "USDT") && TrimSuffix(TrimSuffix(TrimSuffix(trade, "USDT"), "-"), "_") == target
    ensures trade == target + "USDT" || trade == target + "-USDT" || trade == target + "_USDT"
         || trade == target + "_-USDT"
  {
    hide TrimSuffix, HasSuffix;
    var base := TrimSuffix(trade, "USDT");
    var inner := TrimSuffix(base, "-");
    TrimmedOff(trade, "USDT");
    TrimUndone(base, "-");
    TrimUndone(inner, "_");
    Joined(target, "-", "USDT", "-USDT");
    Joined(target, "_", "USDT", "_USDT");
    Joined(target + "_", "-", "USDT", "-USDT");
    Joined(target, "_", "-USDT", "_-USDT");
  }

  lemma TrimmedOff(s: string, x: string)
    requires HasSuffix(s, x)
    ensures s == TrimSuffix(s, x) + x
  {
    assert s == s[..|s| - |x|] + s[|s| - |x|..];
  }

  lemma Joined(s: string, a: string, b: string, ab: string)
    requires a + b == ab
    ensures s + a + b == s + ab
  {
  }

  lemma DoubleSeparatorAccepted(target: string)
    ensures MatchesUpper(target, target + "_-USDT")
  {
    var trade := target + "_-USDT";
    assert trade == ((target + "_") + "-") + "USDT";
    TrimAdded((target + "_") + "-", "USDT");
    TrimAdded(target + "_", "-");
    TrimAdded(target, "_");
  }

  lemma PhemexForm(target: string, trade: string)
    ensures IsPhemexSpot(target, trade) <==> trade == "S" + target + "USDT"
  {
    if trade == "S" + target + "USDT" {
      assert trade[1..] == target + "USDT" && trade[..1] == "S";
      TrimAdded(target, "USDT");
    }
    if IsPhemexSpot(target, trade) {
      TrimUndone(trade[1..], "USDT");
      assert trade == trade[..1] + trade[1..];
      assert trade == "S" + (target + "USDT");
    }
  }

  predicate IsOneOfSix(target: string, trade: string) {
    || trade == target || trade == target + "USDT" || trade == target + "-USDT" || trade == target + "_USDT"
    || trade == target + "_-USDT" || trade == "S" + target + "USDT"
  }

  /** For every listed symbol, separators in it or not, exactly six names are accepted, ignoring case. */
  lemma AcceptsExactlySix(symbol: string, tradeSymbol: string)
    ensures IsTargetSymbol(symbol, tradeSymbol) <==> IsOneOfSix(ToUpper(symbol), ToUpper(tradeSymbol))
  {
    var target, trade := ToUpper(symbol), ToUpper(tradeSymbol);
    DoubleSeparatorAccepted(target);
    PhemexForm(target, trade);
    if HasSuffix(trade, "USDT") && TrimSuffix(TrimSuffix(TrimSuffix(trade, "USDT"), "-"), "_") == target {
      UntrimmedPair(target, trade);
    }
    hide TrimSuffix, HasSuffix, IsPhemexSpot, ToUpper;
  }

  /** The trade buffer has its own, shorter version of the test. */
  predicate BufferIsTargetSymbol(targetSymbol: string, tradeSymbol: string) {
    var target, trade := ToUpper(targetSymbol), ToUpper(tradeSymbol);
    || target == trade
    || trade == target + "USDT"
    || trade == target + "-USDT" || trade == target + "_USDT"
    || IsPhemexSpot(target, trade)
  }

  /** The two versions part on one name only. */
  lemma VersionsDifferOnOneName(symbol: string, tradeSymbol: string)
    ensures IsTargetSymbol(symbol, tradeSymbol) <==>
            BufferIsTargetSymbol(symbol, tradeSymbol) || ToUpper(tradeSymbol) == ToUpper(symbol) + "_-USDT"
  {
    AcceptsExactlySix(symbol, tradeSymbol);
    PhemexForm(ToUpper(symbol), ToUpper(tradeSymbol));
    hide ToUpper, IsPhemexSpot, IsTargetSymbol;
  }

  class CollectionEvent {
    const symbol: string
    const triggerTime: int
    var binanceSpot: seq<TradeEvent>
    var binanceFutures: seq<TradeEvent>
    var okxSpot: seq<TradeEvent>
    var okxFutures: seq<TradeEvent>
    var kucoinSpot: seq<TradeEvent>
    var kucoinFutures: seq<TradeEvent>
    var phemexSpot: seq<TradeEvent>
    var phemexFutures: seq<TradeEvent>
    var gateSpot: seq<TradeEvent>
    var gateFutures: seq<TradeEvent>
    var bybitSpot: seq<TradeEvent>
    var bybitFutures: seq<TradeEvent>

    /** The slices in the order of EXCHANGE_MARKETS. */
    ghost function Slice(i: nat): seq<TradeEvent>
      reads this
    {
      if i == 0 then binanceSpot
      else if i == 1 then binanceFutures
      else if i == 2 then bybitSpot
      else if i == 3 then bybitFutures
      else if i == 4 then okxSpot
      else if i == 5 then okxFutures
      else if i == 6 then kucoinSpot
      else if i == 7 then kucoinFutures
      else if i == 8 then gateSpot
      else if i == 9 then gateFutures
      else if i == 10 then phemexSpot
      else if i == 11 then phemexFutures
      else []
    }

    constructor (symbol: string, triggerTime: int)
      ensures this.symbol == symbol && this.triggerTime == triggerTime
      ensures forall i: nat :: Slice(i) == []
      ensures GetTotalTradeCount() == 0
    {
      this.symbol, this.triggerTime := symbol, triggerTime;
      binanceSpot, binanceFutures, okxSpot, okxFutures := [], [], [], [];
      kucoinSpot, kucoinFutures, phemexSpot, phemexFutures := [], [], [], [];
      gateSpot, gateFutures, bybitSpot, bybitFutures := [], [], [], [];
    }

    function GetTotalTradeCount(): nat
      reads this
    {
      |binanceSpot| + |binanceFutures| + |okxSpot| + |okxFutures| + |kucoinSpot| + |kucoinFutures|
      + |phemexSpot| + |phemexFutures| + |gateSpot| + |gateFutures| + |bybitSpot| + |bybitFutures|
    }

    /** Appends to the slice the key names and to no other; an unknown key is ignored. */
    method AddTradeFromBuffer(exchangeKey: string, trade: TradeEvent)
      modifies this
      ensures forall i: nat :: Slice(i) == if i < 12 && i == KeyIndex(exchangeKey) then old(Slice(i)) + [trade]
                                           else old(Slice(i))
      ensures GetTotalTradeCount() == old(GetTotalTradeCount()) + if KeyIndex(exchangeKey) < 12 then 1 else 0
    {
      match exchangeKey
      case "binance_spot" => binanceSpot := binanceSpot + [trade];
      case "binance_futures" => binanceFutures := binanceFutures + [trade];
      case "bybit_spot" => bybitSpot := bybitSpot + [trade];
      case "bybit_futures" => bybitFutures := bybitFutures + [trade];
      case "okx_spot" => okxSpot := okxSpot + [trade];
      case "okx_futures" => okxFutures := okxFutures + [trade];
      case "kucoin_spot" => kucoinSpot := kucoinSpot + [trade];
      case "kucoin_futures" => kucoinFutures := kucoinFutures + [trade];
      case "gate_spot" => gateSpot := gateSpot + [trade];
      case "gate_futures" => gateFutures := gateFutures + [trade];
      case "phemex_spot" => phemexSpot := phemexSpot + [trade];
      case "phemex_futures" => phemexFutures := phemexFutures + [trade];
      case _ =>
    }
  }
}
