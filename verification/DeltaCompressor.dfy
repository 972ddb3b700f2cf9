/** The compressor as the program runs it: arrays filled in loops, a byte buffer written
    and a cursor advanced, each tied to the mathematical codec. */
module DeltaCompressors {
  import opened Trades
  import opened BinaryFrame
  import opened DeltaCodec
  import opened CodecRoundTrip
  import opened CodecTheorems

  class ByteBuffer {
    var bytes: seq<byte>

    constructor ()
      ensures bytes == []
    {
      bytes := [];
    }

    method WriteInt(x: int, n: nat)
      modifies this
      ensures bytes == old(bytes) + EncodeInt(x, n)
    {
      bytes := bytes + EncodeInt(x, n);
    }

    method WriteArray(arr: seq<int>, n: nat)
      modifies this
      ensures bytes == old(bytes) + EncodeArray(arr, n)
    {
      WriteInt(|arr|, 4);
      for i := 0 to |arr|
        invariant bytes == old(bytes) + (EncodeInt(|arr|, 4) + EncodeInts(arr[..i], n))
      {
        assert arr[..i + 1][..i] == arr[..i];
        WriteInt(arr[i], n);
        Reassociate(EncodeInt(|arr|, 4), EncodeInts(arr[..i], n), EncodeInt(arr[i], n));
        Reassociate(old(bytes), EncodeInt(|arr|, 4) + EncodeInts(arr[..i], n), EncodeInt(arr[i], n));
      }
      assert arr[..|arr|] == arr;
    }

    method WriteBytes(arr: seq<byte>)
      modifies this
      ensures bytes == old(bytes) + EncodeBytes(arr)
    {
      WriteInt(|arr|, 4);
      Reassociate(old(bytes), EncodeInt(|arr|, 4), arr);
      bytes := bytes + arr;
    }

    method WriteStrings(strings: seq<string>)
      requires AreByteStrings(strings)
      modifies this
      ensures bytes == old(bytes) + EncodeStrings(strings)
    {
      for i := 0 to |strings|
        invariant bytes == old(bytes) + EncodeStrings(strings[..i])
      {
        assert strings[..i + 1][..i] == strings[..i];
        WriteBytes(Octets(strings[i]));
        Reassociate(old(bytes), EncodeStrings(strings[..i]), EncodeBytes(Octets(strings[i])));
      }
      assert strings[..|strings|] == strings;
    }
  }

  class ByteReader {
    const data: seq<byte>
    var pos: nat

    ghost predicate Valid()
      reads this
    {
      pos <= |data|
    }

    function Rest(): seq<byte>
      requires Valid()
      reads this
    {
      data[pos..]
    }

    constructor (bytes: seq<byte>)
      ensures Valid() && Rest() == bytes
    {
      data, pos := bytes, 0;
    }

    method ReadInt(n: nat, signed: bool) returns (x: int)
      requires Valid()
      modifies this
      ensures Valid()
      ensures (x, Rest()) == TakeInt(old(Rest()), n, signed)
    {
      if |data| - pos >= n {
        x := DecodeInt(data[pos..pos + n], signed);
        assert Rest()[..n] == data[pos..pos + n] && Rest()[n..] == data[pos + n..];
        pos := pos + n;
      } else {
        x := 0;
        pos := |data|;
        assert Rest() == [];
      }
    }

    method ReadArray(n: nat, signed: bool) returns (panic: bool, arr: seq<int>)
      requires Valid()
      modifies this
      ensures Valid()
      ensures TakeArray(old(Rest()), n, signed) == if panic then Panic else Got(arr, Rest())
    {
      arr := [];
      var length := ReadInt(4, true);
      if length < 0 {
        return true, [];
      }
      label Start:
      for i := 0 to length
        invariant Valid() && (arr, Rest()) == TakeInts(old@Start(Rest()), i, n, signed)
      {
        var x := ReadInt(n, signed);
        arr := arr + [x];
      }
      return false, arr;
    }

    method ReadBytes() returns (panic: bool, arr: seq<byte>)
      requires Valid()
      modifies this
      ensures Valid()
      ensures TakeBytes(old(Rest())) == if panic then Panic else Got(arr, Rest())
    {
      var length := ReadInt(4, true);
      if length < 0 {
        return true, [];
      }
      if length <= |data| - pos {
        assert Rest()[..length] == data[pos..pos + length] && Rest()[length..] == data[pos + length..];
        arr := data[pos..pos + length];
        pos := pos + length;
      } else {
        arr := data[pos..] + seq(length - (|data| - pos), _ => 0);
        pos := |data|;
      }
      return false, arr;
    }

    /** The symbol table: names in order, and the map from a name to its index byte. */
    method ReadMapping(symbolCount: nat) returns (panic: bool, mapping: SymbolMapping)
      requires Valid()
      modifies this
      ensures Valid()
      ensures TakeStrings(old(Rest()), symbolCount) == if panic then Panic else Got(mapping.uniqueSymbols, Rest())
      ensures mapping.symbolMap == IndexMap(mapping.uniqueSymbols)
    {
      mapping := SymbolMapping([], map[]);
      for i := 0 to symbolCount
        invariant Valid() && |mapping.uniqueSymbols| == i
        invariant TakeStrings(old(Rest()), i) == Got(mapping.uniqueSymbols, Rest())
        invariant mapping.symbolMap == IndexMap(mapping.uniqueSymbols)
      {
        var failed, symbolBytes := ReadBytes();
        if failed {
          PanicStays(old(Rest()), i + 1, symbolCount);
          return true, mapping;
        }
        var symbol := Text(symbolBytes);
        assert (mapping.uniqueSymbols + [symbol])[..i] == mapping.uniqueSymbols;
        mapping := SymbolMapping(mapping.uniqueSymbols + [symbol], mapping.symbolMap[symbol := i % 256]);
      }
      return false, mapping;
    }
  }

  lemma {:induction false} PanicStays(rest: seq<byte>, k: nat, n: nat)
    requires k <= n && TakeStrings(rest, k) == Panic
    ensures TakeStrings(rest, n) == Panic
  {
    if k < n {
      PanicStays(rest, k, n - 1);
    }
  }

  datatype Compressed = Failed | Compressed(data: Blob)

  class DeltaCompressor {
    var basePrice: real
    var baseTime: int64
    const priceScale := SCALE

    constructor ()
    {
      basePrice, baseTime := 0.0, 0;
    }

    /** Fails on no trades or when the earliest trade's price does not parse; otherwise the
        bytes are the frame of the encoding of some time-sorted arrangement of the trades. */
    method Compress(trades: seq<TradeEvent>) returns (r: Compressed, ghost sorted: seq<TradeEvent>, ghost unique: seq<string>)
      requires forall i :: 0 <= i < |trades| ==> IsByteString(trades[i].symbol) && |trades[i].symbol| <= MAX32
      requires |trades| <= MAX32
      modifies this
      ensures multiset(sorted) == multiset(trades) && |sorted| == |trades| && SortedByTime(sorted)
      ensures r.Failed? <==> trades == [] || sorted[0].price.NotANumber?
      ensures r.Compressed? ==> Lists(unique, sorted) && WellNamed(unique) && r.data == EncodeFrame(Encode(sorted, unique), unique)
    {
      sorted, unique := trades, [];
      if |trades| == 0 {
        return Failed, sorted, unique;
      }
      var sortedTrades := SortByTime(trades);
      sorted := sortedTrades;
      if sortedTrades[0].price.NotANumber? {
        return Failed, sorted, unique;
      }
      var mapping := CreateSymbolMapping(sortedTrades);
      unique := mapping.uniqueSymbols;
      ListedAreByteStrings(trades, sortedTrades, unique);
      var priceDeltas, timeDeltas, volumes := CompressNumbers(sortedTrades);
      var symbols := CompressSymbols(sortedTrades, mapping);
      var exchanges := CompressExchanges(sortedTrades);
      var marketTypes := CompressMarketTypes(sortedTrades);
      var sides := CompressSides(sortedTrades);
      var compressed := CompressedData(basePrice, baseTime, priceScale, |sortedTrades|, priceDeltas, timeDeltas, volumes,
                                       symbols, exchanges, marketTypes, sides);
      assert compressed == Encode(sorted, unique);
      var data := SerializeToBinary(compressed, mapping);
      return Compressed(data), sorted, unique;
    }

    /** The delta loop over the sorted trades. */
    method CompressNumbers(trades: seq<TradeEvent>) returns (priceDeltas: seq<int>, timeDeltas: seq<int>, volumes: seq<int>)
      requires |trades| > 0 && trades[0].price.Num?
      modifies this
      ensures Run(trades, |trades|) == Deltas(basePrice, baseTime, priceDeltas, timeDeltas, volumes)
    {
      hide Step;
      basePrice, baseTime := trades[0].price.v, trades[0].timestamp;
      var prices, times, vols := new int[|trades|](_ => 0), new int[|trades|](_ => 0), new int[|trades|](_ => 0);
      for i := 0 to |trades|
        invariant basePrice == Run(trades, i).basePrice && baseTime == Run(trades, i).baseTime
        invariant PrefixIs(prices[..], Run(trades, i).prices, i)
        invariant PrefixIs(times[..], Run(trades, i).times, i)
        invariant PrefixIs(vols[..], Run(trades, i).volumes, i)
      {
        var p, t, v := CompressTrade(trades[i]);
        StepAppends(Run(trades, i), trades[i]);
        prices[i] := p;
        times[i] := t;
        vols[i] := v;
      }
      return prices[..], times[..], vols[..];
    }

    /** One turn of the loop. An unparseable trade leaves zeros; a delta out of range moves the base. */
    method CompressTrade(trade: TradeEvent) returns (p: int, t: int, v: int)
      modifies this
      ensures Step(Deltas(old(basePrice), old(baseTime), [], [], []), trade) == Deltas(basePrice, baseTime, [p], [t], [v])
    {
      p, t, v := 0, 0, 0;
      if trade.price.Num? && trade.quantity.Num? {
        var priceDelta := (trade.price.v - basePrice) * MICRO;
        if priceDelta > 32767.0 || priceDelta < -32768.0 {
          basePrice := trade.price.v;
          priceDelta := 0.0;
        }
        p := Trunc(priceDelta);
        var timeDelta := TimeDelta(baseTime, trade.timestamp);
        if timeDelta > 65535 {
          baseTime := trade.timestamp;
          timeDelta := 0;
        }
        t := timeDelta % 0x1_0000;
        v := Trunc(trade.quantity.v * MICRO) % 0x1_0000_0000;
      }
    }

    /** The distinct symbols, numbered in whatever order the map is iterated. */
    method CreateSymbolMapping(trades: seq<TradeEvent>) returns (mapping: SymbolMapping)
      ensures Lists(mapping.uniqueSymbols, trades)
      ensures mapping.symbolMap == IndexMap(mapping.uniqueSymbols)
    {
      var uniqueSymbols: set<string> := {};
      for k := 0 to |trades|
        invariant forall j :: 0 <= j < k ==> trades[j].symbol in uniqueSymbols
        invariant forall s :: s in uniqueSymbols ==> exists j :: 0 <= j < k && trades[j].symbol == s
      {
        uniqueSymbols := uniqueSymbols + {trades[k].symbol};
      }
      mapping := NumberSymbols(uniqueSymbols);
      forall i | 0 <= i < |mapping.uniqueSymbols|
        ensures exists j :: 0 <= j < |trades| && trades[j].symbol == mapping.uniqueSymbols[i]
      {
        assert mapping.uniqueSymbols[i] in uniqueSymbols;
      }
    }

    /** The running index is a byte and wraps around. */
    method NumberSymbols(symbols: set<string>) returns (mapping: SymbolMapping)
      ensures Distinct(mapping.uniqueSymbols) && forall s :: s in mapping.uniqueSymbols <==> s in symbols
      ensures mapping.symbolMap == IndexMap(mapping.uniqueSymbols)
    {
      mapping := SymbolMapping([], map[]);
      NothingListed();
      hide IndexMap, Distinct;
      var todo := symbols;
      var i: byte := 0;
      while todo != {}
        invariant i == |mapping.uniqueSymbols| % 256
        invariant Distinct(mapping.uniqueSymbols)
        invariant todo <= symbols && forall s :: s in mapping.uniqueSymbols <==> s in symbols - todo
        invariant mapping.symbolMap == IndexMap(mapping.uniqueSymbols)
        decreases |todo|
      {
        var symbol :| symbol in todo;
        IndexMapSnoc(mapping.uniqueSymbols, symbol);
        AppendDistinct(mapping.uniqueSymbols, symbol);
        mapping := SymbolMapping(mapping.uniqueSymbols + [symbol], mapping.symbolMap[symbol := i]);
        i := (i + 1) % 256;
        todo := todo - {symbol};
      }
    }

    method CompressSymbols(trades: seq<TradeEvent>, mapping: SymbolMapping) returns (indices: seq<byte>)
      requires mapping.symbolMap == IndexMap(mapping.uniqueSymbols)
      ensures indices == seq(|trades|, i requires 0 <= i < |trades| => SymbolCode(mapping.uniqueSymbols, trades[i].symbol))
    {
      var a := new byte[|trades|](_ => 0);
      for i := 0 to |trades|
        invariant forall k :: 0 <= k < i ==> a[k] == SymbolCode(mapping.uniqueSymbols, trades[k].symbol)
      {
        a[i] := if trades[i].symbol in mapping.symbolMap then mapping.symbolMap[trades[i].symbol] else 0;
      }
      return a[..];
    }

    method CompressExchanges(trades: seq<TradeEvent>) returns (indices: seq<byte>)
      ensures indices == seq(|trades|, i requires 0 <= i < |trades| => ExchangeCode(trades[i].exchange))
    {
      var a := new byte[|trades|](_ => 0);
      for i := 0 to |trades|
        invariant forall k :: 0 <= k < i ==> a[k] == ExchangeCode(trades[k].exchange)
      {
        a[i] := ExchangeCode(trades[i].exchange);
      }
      return a[..];
    }

    method CompressMarketTypes(trades: seq<TradeEvent>) returns (indices: seq<byte>)
      ensures indices == seq(|trades|, i requires 0 <= i < |trades| => MarketCode(trades[i].marketType))
    {
      var a := new byte[|trades|](_ => 0);
      for i := 0 to |trades|
        invariant forall k :: 0 <= k < i ==> a[k] == MarketCode(trades[k].marketType)
      {
        a[i] := MarketCode(trades[i].marketType);
      }
      return a[..];
    }

    /** Sets one bit per sell, in place. */
    method CompressSides(trades: seq<TradeEvent>) returns (sideData: seq<byte>)
      ensures sideData == PackSides(Sides(trades), |trades|)
    {
      var a := new byte[(|trades| + 7) / 8](_ => 0);
      for i := 0 to |trades|
        invariant a[..] == PackSides(Sides(trades), i)
      {
        if trades[i].side == "sell" {
          a[i / 8] := SetBit(a[i / 8], i % 8);
        }
      }
      return a[..];
    }

    method SerializeToBinary(compressed: CompressedData, mapping: SymbolMapping) returns (data: Blob)
      requires AreByteStrings(mapping.uniqueSymbols)
      ensures data == EncodeFrame(compressed, mapping.uniqueSymbols)
    {
      var c, unique := compressed, mapping.uniqueSymbols;
      var buf := new ByteBuffer();
      ghost var t9 := Tail9(c, unique);
      ghost var whole := EncodeFrame(c, unique).bytes;
      buf.WriteInt(c.baseTime, 8);
      Peel(buf.bytes, [], EncodeInt(c.baseTime, 8), EncodeInt(c.priceScale, 4) + (EncodeInt(c.count, 4) + t9), whole);
      ghost var b := buf.bytes;
      buf.WriteInt(c.priceScale, 4);
      Peel(buf.bytes, b, EncodeInt(c.priceScale, 4), EncodeInt(c.count, 4) + t9, whole);
      b := buf.bytes;
      buf.WriteInt(c.count, 4);
      Peel(buf.bytes, b, EncodeInt(c.count, 4), t9, whole);
      b := buf.bytes;
      buf.WriteInt(|unique|, 4);
      Peel(buf.bytes, b, EncodeInt(|unique|, 4), EncodeStrings(unique) + Tail7(c), whole);
      b := buf.bytes;
      buf.WriteStrings(unique);
      Peel(buf.bytes, b, EncodeStrings(unique), Tail7(c), whole);
      WriteArrays(buf, c, whole);
      data := Blob(c.basePrice, buf.bytes);
    }

    method WriteArrays(buf: ByteBuffer, c: CompressedData, ghost whole: seq<byte>)
      requires buf.bytes + Tail7(c) == whole
      modifies buf
      ensures buf.bytes == whole
    {
      ghost var b := buf.bytes;
      buf.WriteArray(c.priceDeltas, 2);
      Peel(buf.bytes, b, EncodeArray(c.priceDeltas, 2), EncodeArray(c.timeDeltas, 2) + (EncodeArray(c.volumes, 4) + Tail4(c)), whole);
      b := buf.bytes;
      buf.WriteArray(c.timeDeltas, 2);
      Peel(buf.bytes, b, EncodeArray(c.timeDeltas, 2), EncodeArray(c.volumes, 4) + Tail4(c), whole);
      b := buf.bytes;
      buf.WriteArray(c.volumes, 4);
      Peel(buf.bytes, b, EncodeArray(c.volumes, 4), Tail4(c), whole);
      WriteCategories(buf, c, whole);
    }

    method WriteCategories(buf: ByteBuffer, c: CompressedData, ghost whole: seq<byte>)
      requires buf.bytes + Tail4(c) == whole
      modifies buf
      ensures buf.bytes == whole
    {
      ghost var t1 := EncodeBytes(c.sides) + [];
      ghost var b := buf.bytes;
      buf.WriteBytes(c.symbols);
      Peel(buf.bytes, b, EncodeBytes(c.symbols), EncodeBytes(c.exchanges) + (EncodeBytes(c.marketTypes) + t1), whole);
      b := buf.bytes;
      buf.WriteBytes(c.exchanges);
      Peel(buf.bytes, b, EncodeBytes(c.exchanges), EncodeBytes(c.marketTypes) + t1, whole);
      b := buf.bytes;
      buf.WriteBytes(c.marketTypes);
      Peel(buf.bytes, b, EncodeBytes(c.marketTypes), t1, whole);
      b := buf.bytes;
      buf.WriteBytes(c.sides);
      Peel(buf.bytes, b, EncodeBytes(c.sides), [], whole);
      assert buf.bytes + [] == buf.bytes;
    }

    method DeserializeFromBinary(data: Blob) returns (r: Read<(CompressedData, SymbolMapping)>)
      ensures r == DecodeFrame(data)
    {
      var buf := new ByteReader(data.bytes);
      var baseTime := buf.ReadInt(8, true);
      var priceScale := buf.ReadInt(4, true);
      var count := buf.ReadInt(4, true);
      var symbolCount := buf.ReadInt(4, true);
      if symbolCount < 0 {
        return Panic;
      }
      var panic, mapping := buf.ReadMapping(symbolCount);
      if panic {
        return Panic;
      }
      var header := CompressedData(data.basePrice, baseTime, priceScale, count, [], [], [], [], [], [], []);
      var c := ReadArrays(buf, header);
      if c.Panic? {
        return Panic;
      }
      return Got((c.value, mapping), c.rest);
    }

    method ReadArrays(buf: ByteReader, header: CompressedData) returns (r: Read<CompressedData>)
      requires buf.Valid()
      modifies buf
      ensures r == DecodeTail7(header, old(buf.Rest()))
    {
      var panic, priceDeltas := buf.ReadArray(2, true);
      if panic { return Panic; }
      var timeDeltas, volumes;
      panic, timeDeltas := buf.ReadArray(2, false);
      if panic { return Panic; }
      panic, volumes := buf.ReadArray(4, false);
      if panic { return Panic; }
      r := ReadCategories(buf, header.(priceDeltas := priceDeltas, timeDeltas := timeDeltas, volumes := volumes));
    }

    method ReadCategories(buf: ByteReader, header: CompressedData) returns (r: Read<CompressedData>)
      requires buf.Valid()
      modifies buf
      ensures r == DecodeTail4(header, old(buf.Rest()))
    {
      var panic, symbols := buf.ReadBytes();
      if panic { return Panic; }
      var exchanges, marketTypes, sides;
      panic, exchanges := buf.ReadBytes();
      if panic { return Panic; }
      panic, marketTypes := buf.ReadBytes();
      if panic { return Panic; }
      panic, sides := buf.ReadBytes();
      if panic { return Panic; }
      return Got(header.(symbols := symbols, exchanges := exchanges, marketTypes := marketTypes, sides := sides), buf.Rest());
    }

    /** Rebuilds the trades of a frame one by one. */
    method Decompress(data: Blob) returns (r: Decoded)
      ensures r == Decompressed(data)
    {
      hide DecodeFrame, DecodeTrade;
      var frame := DeserializeFromBinary(data);
      if frame.Panic? {
        return Crash;
      }
      var (c, mapping) := frame.value;
      if c.count < 0 || c.count > |c.priceDeltas| || c.count > |c.timeDeltas| || c.count > |c.volumes| {
        return Crash;
      }
      var trades := [];
      for i := 0 to c.count
        invariant |trades| == i && forall k :: 0 <= k < i ==> trades[k] == DecodeTrade(c, mapping.uniqueSymbols, k)
      {
        trades := trades + [DecodeTrade(c, mapping.uniqueSymbols, i)];
      }
      return Decoded(trades);
    }
  }

  predicate PrefixIs(arr: seq<int>, xs: seq<int>, n: nat) {
    |xs| == n <= |arr| && forall k :: 0 <= k < n ==> arr[k] == xs[k]
  }

  lemma StepAppends(d: Deltas, t: TradeEvent)
    ensures var one := Step(Deltas(d.basePrice, d.baseTime, [], [], []), t);
            |one.prices| == |one.times| == |one.volumes| == 1
            && Step(d, t) == Deltas(one.basePrice, one.baseTime, d.prices + one.prices, d.times + one.times, d.volumes + one.volumes)
  {
  }

  lemma NothingListed()
    ensures Distinct([]) && IndexMap([]) == map[]
  {
  }

  lemma IndexMapSnoc(unique: seq<string>, symbol: string)
    ensures IndexMap(unique + [symbol]) == IndexMap(unique)[symbol := |unique| % 256]
  {
    assert (unique + [symbol])[..|unique|] == unique;
  }

  lemma AppendDistinct(unique: seq<string>, symbol: string)
    requires Distinct(unique) && symbol !in unique
    ensures Distinct(unique + [symbol])
  {
  }

  /** What `Decompress` returns for a blob. */
  function Decompressed(data: Blob): Decoded {
    match DecodeFrame(data)
    case Panic => Crash
    case Got(frame, _) => Decode(frame.0, frame.1.uniqueSymbols)
  }

  /** One more section written: what is still missing from the whole frame. */
  lemma Peel(after: seq<byte>, before: seq<byte>, section: seq<byte>, tail: seq<byte>, whole: seq<byte>)
    requires after == before + section && before + (section + tail) == whole
    ensures after + tail == whole
  {
  }

  lemma ListedAreByteStrings(trades: seq<TradeEvent>, sorted: seq<TradeEvent>, unique: seq<string>)
    requires multiset(sorted) == multiset(trades) && Lists(unique, sorted) && |trades| <= MAX32
    requires forall i :: 0 <= i < |trades| ==> IsByteString(trades[i].symbol) && |trades[i].symbol| <= MAX32
    ensures WellNamed(unique)
  {
    assert |multiset(sorted)| == |sorted| && |multiset(trades)| == |trades|;
    forall i | 0 <= i < |unique| ensures IsByteString(unique[i]) && |unique[i]| <= MAX32 {
      var j :| 0 <= j < |sorted| && sorted[j].symbol == unique[i];
      assert sorted[j] in multiset(sorted);
      var k :| 0 <= k < |trades| && trades[k] == sorted[j];
    }
    ListIsNoLonger(unique, sorted);
  }

  lemma ListIsNoLonger(unique: seq<string>, trades: seq<TradeEvent>)
    requires Lists(unique, trades)
    ensures |unique| <= |trades|
  {
    var symbols := seq(|trades|, i requires 0 <= i < |trades| => trades[i].symbol);
    forall s | s in unique ensures s in symbols {
      var i :| 0 <= i < |unique| && unique[i] == s;
      var j :| 0 <= j < |trades| && trades[j].symbol == unique[i];
      assert symbols[j] == s;
    }
    DistinctIsNoLonger(unique, symbols);
  }

  /** The compressor and decompressor together, through the bytes: a successful compression
      decompresses to the image of some sorted arrangement of the trades. */
  lemma DecompressOfCompress(trades: seq<TradeEvent>, sorted: seq<TradeEvent>, unique: seq<string>)
    requires multiset(sorted) == multiset(trades) && 0 < |sorted| <= MAX32 && sorted[0].price.Num? && WellNamed(unique)
    requires SortedByTime(sorted) && Lists(unique, sorted)
    ensures Decompressed(EncodeFrame(Encode(sorted, unique), unique)) == Decoded(Image(sorted, unique))
    ensures AllFaithful(sorted, Image(sorted, unique)) <==> Encodable(sorted, unique)
    ensures Encodable(sorted, unique) ==> SortedByTime(Image(sorted, unique))
  {
    BytesRoundTrip(sorted, unique);
    RoundTripIffEncodable(sorted, unique);
    if Encodable(sorted, unique) {
      ImageIsSorted(sorted, unique);
    }
  }
}
