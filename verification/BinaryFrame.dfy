/** The compressor's binary frame: little-endian integers, length-prefixed arrays and
    strings, written to a growing buffer and read back through a cursor. */
module BinaryFrame {
  import opened Trades

  type byte = x: int | 0 <= x < 256

  /** The eight bytes of the leading float64 are kept as the number they encode. */
  datatype Blob = Blob(basePrice: real, bytes: seq<byte>)

  datatype CompressedData = CompressedData(
    basePrice: real, baseTime: int, priceScale: int, count: int,
    priceDeltas: seq<int>, timeDeltas: seq<int>, volumes: seq<int>,
    symbols: seq<byte>, exchanges: seq<byte>, marketTypes: seq<byte>, sides: seq<byte>)

  datatype SymbolMapping = SymbolMapping(uniqueSymbols: seq<string>, symbolMap: map<string, byte>)

  /** Reading a negative length makes Go's `make` panic. */
  datatype Read<T> = Panic | Got(value: T, rest: seq<byte>)

  const MAX32: int := 0x7fff_ffff

  // ----- integers -----

  function Pow256(n: nat): (p: int)
    ensures p >= 1 && (n > 0 ==> p % 2 == 0)
  {
    if n == 0 then 1 else 256 * Pow256(n - 1)
  }

  function LittleEndian(x: nat, n: nat): (bs: seq<byte>)
    ensures |bs| == n
  {
    if n == 0 then [] else [x % 256] + LittleEndian(x / 256, n - 1)
  }

  function FromLittleEndian(bs: seq<byte>): nat {
    if bs == [] then 0 else bs[0] + 256 * FromLittleEndian(bs[1..])
  }

  function EncodeInt(x: int, n: nat): seq<byte> {
    LittleEndian(x % Pow256(n), n)
  }

  /** Two's complement: the upper half of the range stands for negative numbers. */
  function DecodeInt(bs: seq<byte>, signed: bool): int {
    var u := FromLittleEndian(bs);
    if signed && 2 * u >= Pow256(|bs|) then u - Pow256(|bs|) else u
  }

  predicate Fits(x: int, n: nat, signed: bool) {
    if signed then -Pow256(n) <= 2 * x < Pow256(n) else 0 <= x < Pow256(n)
  }

  lemma {:induction false} LittleEndianRoundTrip(x: nat, n: nat)
    requires x < Pow256(n)
    ensures FromLittleEndian(LittleEndian(x, n)) == x
  {
    if n > 0 {
      LittleEndianRoundTrip(x / 256, n - 1);
      assert LittleEndian(x, n)[1..] == LittleEndian(x / 256, n - 1);
    }
  }

  lemma IntRoundTrip(x: int, n: nat, signed: bool)
    requires Fits(x, n, signed) && n > 0
    ensures DecodeInt(EncodeInt(x, n), signed) == x
  {
    LittleEndianRoundTrip(x % Pow256(n), n);
    if x < 0 {
      ModNegative(x, Pow256(n));
    } else {
      ModSmall(x, Pow256(n));
    }
  }

  lemma ModNegative(x: int, m: int)
    requires -m <= x < 0
    ensures x % m == x + m
  {
    ModUnique(x, m, -1, x + m);
  }

  lemma ModSmall(x: int, m: int)
    requires 0 <= x < m
    ensures x % m == x
  {
    ModUnique(x, m, 0, x);
  }

  // ----- reading one piece off the front of the remaining bytes -----

  /** `binary.Read` of an n-byte integer: on a short input it consumes what is left and
      leaves the zero value. */
  function TakeInt(rest: seq<byte>, n: nat, signed: bool): (int, seq<byte>) {
    if |rest| >= n then (DecodeInt(rest[..n], signed), rest[n..]) else (0, [])
  }

  function TakeInts(rest: seq<byte>, k: nat, n: nat, signed: bool): (seq<int>, seq<byte>) {
    if k == 0 then ([], rest)
    else
      var (xs, rest1) := TakeInts(rest, k - 1, n, signed);
      var (x, rest2) := TakeInt(rest1, n, signed);
      (xs + [x], rest2)
  }

  function TakeArray(rest: seq<byte>, n: nat, signed: bool): Read<seq<int>> {
    var (length, rest1) := TakeInt(rest, 4, true);
    if length < 0 then Panic
    else
      var (xs, rest2) := TakeInts(rest1, length, n, signed);
      Got(xs, rest2)
  }

  /** A raw read fills what it can; the rest of the slice stays zero. */
  function TakeBytes(rest: seq<byte>): Read<seq<byte>> {
    var (length, rest1) := TakeInt(rest, 4, true);
    if length < 0 then Panic
    else if length <= |rest1| then Got(rest1[..length], rest1[length..])
    else Got(rest1 + seq(length - |rest1|, _ => 0), [])
  }

  function TakeStrings(rest: seq<byte>, k: nat): Read<seq<string>> {
    if k == 0 then Got([], rest)
    else
      match TakeStrings(rest, k - 1)
      case Panic => Panic
      case Got(strings, rest1) =>
        match TakeBytes(rest1)
        case Panic => Panic
        case Got(bs, rest2) => Got(strings + [Text(bs)], rest2)
  }

  // ----- the matching encodings -----

  function EncodeInts(xs: seq<int>, n: nat): seq<byte> {
    if xs == [] then [] else EncodeInts(xs[..|xs| - 1], n) + EncodeInt(xs[|xs| - 1], n)
  }

  function EncodeArray(xs: seq<int>, n: nat): seq<byte> {
    EncodeInt(|xs|, 4) + EncodeInts(xs, n)
  }

  function EncodeBytes(bs: seq<byte>): seq<byte> {
    EncodeInt(|bs|, 4) + bs
  }

  /** Symbols the frame can carry: byte strings whose length fits an int32. */
  predicate AreByteStrings(strings: seq<string>) {
    forall i :: 0 <= i < |strings| ==> IsByteString(strings[i]) && |strings[i]| <= MAX32
  }

  function EncodeStrings(strings: seq<string>): seq<byte>
    requires AreByteStrings(strings)
  {
    if strings == [] then []
    else EncodeStrings(strings[..|strings| - 1]) + EncodeBytes(Octets(strings[|strings| - 1]))
  }

  /** Go strings are byte strings; a character here stands for one of their bytes. */
  predicate IsByteString(s: string) {
    forall i :: 0 <= i < |s| ==> s[i] as int < 256
  }

  function Octets(s: string): seq<byte>
    requires IsByteString(s)
  {
    seq(|s|, i requires 0 <= i < |s| => s[i] as int)
  }

  function Text(bs: seq<byte>): string {
    seq(|bs|, i requires 0 <= i < |bs| => bs[i] as char)
  }

  lemma TakeIntRoundTrip(x: int, n: nat, signed: bool, tail: seq<byte>)
    requires Fits(x, n, signed) && n > 0
    ensures TakeInt(EncodeInt(x, n) + tail, n, signed) == (x, tail)
  {
    IntRoundTrip(x, n, signed);
    assert (EncodeInt(x, n) + tail)[..n] == EncodeInt(x, n);
    assert (EncodeInt(x, n) + tail)[n..] == tail;
  }

  lemma LengthFits(n: nat)
    requires n <= MAX32
    ensures Fits(n, 4, true)
  {
    assert Pow256(4) == 256 * (256 * (256 * (256 * Pow256(0))));
  }

  lemma {:induction false} TakeIntsRoundTrip(xs: seq<int>, n: nat, signed: bool, tail: seq<byte>)
    requires n > 0 && forall i :: 0 <= i < |xs| ==> Fits(xs[i], n, signed)
    ensures TakeInts(EncodeInts(xs, n) + tail, |xs|, n, signed) == (xs, tail)
  {
    if xs == [] {
      assert EncodeInts(xs, n) + tail == tail;
    } else {
      var init, last := xs[..|xs| - 1], xs[|xs| - 1];
      TakeIntsRoundTrip(init, n, signed, EncodeInt(last, n) + tail);
      Reassociate(EncodeInts(init, n), EncodeInt(last, n), tail);
      TakeIntRoundTrip(last, n, signed, tail);
      assert init + [last] == xs;
    }
  }

  lemma Reassociate<T>(a: seq<T>, b: seq<T>, c: seq<T>)
    ensures (a + b) + c == a + (b + c)
  {
  }

  lemma TakeArrayRoundTrip(xs: seq<int>, n: nat, signed: bool, tail: seq<byte>)
    requires n > 0 && |xs| <= MAX32 && forall i :: 0 <= i < |xs| ==> Fits(xs[i], n, signed)
    ensures TakeArray(EncodeArray(xs, n) + tail, n, signed) == Got(xs, tail)
  {
    LengthFits(|xs|);
    Reassociate(EncodeInt(|xs|, 4), EncodeInts(xs, n), tail);
    TakeIntRoundTrip(|xs|, 4, true, EncodeInts(xs, n) + tail);
    TakeIntsRoundTrip(xs, n, signed, tail);
  }

  lemma TakeBytesRoundTrip(bs: seq<byte>, tail: seq<byte>)
    requires |bs| <= MAX32
    ensures TakeBytes(EncodeBytes(bs) + tail) == Got(bs, tail)
  {
    LengthFits(|bs|);
    Reassociate(EncodeInt(|bs|, 4), bs, tail);
    TakeIntRoundTrip(|bs|, 4, true, bs + tail);
  }

  lemma TextOfOctets(s: string)
    requires IsByteString(s)
    ensures Text(Octets(s)) == s
  {
  }

  lemma TakeStringsStep(rest: seq<byte>, k: nat, strings: seq<string>, last: string, tail: seq<byte>)
    requires IsByteString(last) && |last| <= MAX32
    requires TakeStrings(rest, k) == Got(strings, EncodeBytes(Octets(last)) + tail)
    ensures TakeStrings(rest, k + 1) == Got(strings + [last], tail)
  {
    TakeBytesRoundTrip(Octets(last), tail);
    TextOfOctets(last);
  }

  lemma {:induction false} TakeStringsRoundTrip(strings: seq<string>, tail: seq<byte>)
    requires AreByteStrings(strings)
    ensures TakeStrings(EncodeStrings(strings) + tail, |strings|) == Got(strings, tail)
  {
    if strings == [] {
      assert EncodeStrings(strings) + tail == tail;
    } else {
      var init, last := strings[..|strings| - 1], strings[|strings| - 1];
      assert init + [last] == strings;
      var next := EncodeBytes(Octets(last)) + tail;
      TakeStringsRoundTrip(init, next);
      Reassociate(EncodeStrings(init), EncodeBytes(Octets(last)), tail);
      assert EncodeStrings(strings) + tail == EncodeStrings(init) + next;
      TakeStringsStep(EncodeStrings(init) + next, |init|, init, last, tail);
    }
  }

  // ----- the whole frame -----

  /** Sections of the frame, the last one first. */
  function Tail4(c: CompressedData): seq<byte> {
    EncodeBytes(c.symbols) + (EncodeBytes(c.exchanges) + (EncodeBytes(c.marketTypes) + (EncodeBytes(c.sides) + [])))
  }

  function Tail7(c: CompressedData): seq<byte> {
    EncodeArray(c.priceDeltas, 2) + (EncodeArray(c.timeDeltas, 2) + (EncodeArray(c.volumes, 4) + Tail4(c)))
  }

  function Tail9(c: CompressedData, unique: seq<string>): seq<byte>
    requires AreByteStrings(unique)
  {
    EncodeInt(|unique|, 4) + (EncodeStrings(unique) + Tail7(c))
  }

  function EncodeFrame(c: CompressedData, unique: seq<string>): Blob
    requires AreByteStrings(unique)
  {
    Blob(c.basePrice, EncodeInt(c.baseTime, 8) + (EncodeInt(c.priceScale, 4) + (EncodeInt(c.count, 4) + Tail9(c, unique))))
  }

  function DecodeTail4(c: CompressedData, rest: seq<byte>): Read<CompressedData> {
    match TakeBytes(rest)
    case Panic => Panic
    case Got(symbols, rest1) =>
      match TakeBytes(rest1)
      case Panic => Panic
      case Got(exchanges, rest2) =>
        match TakeBytes(rest2)
        case Panic => Panic
        case Got(marketTypes, rest3) =>
          match TakeBytes(rest3)
          case Panic => Panic
          case Got(sides, rest4) =>
            Got(c.(symbols := symbols, exchanges := exchanges, marketTypes := marketTypes, sides := sides), rest4)
  }

  function DecodeTail7(c: CompressedData, rest: seq<byte>): Read<CompressedData> {
    match TakeArray(rest, 2, true)
    case Panic => Panic
    case Got(priceDeltas, rest1) =>
      match TakeArray(rest1, 2, false)
      case Panic => Panic
      case Got(timeDeltas, rest2) =>
        match TakeArray(rest2, 4, false)
        case Panic => Panic
        case Got(volumes, rest3) =>
          DecodeTail4(c.(priceDeltas := priceDeltas, timeDeltas := timeDeltas, volumes := volumes), rest3)
  }

  /** The symbol table rebuilt from the list of names: later duplicates win, indices are bytes. */
  function IndexMap(unique: seq<string>): map<string, byte> {
    if unique == [] then map[] else IndexMap(unique[..|unique| - 1])[unique[|unique| - 1] := (|unique| - 1) % 256]
  }

  function DecodeFrame(data: Blob): Read<(CompressedData, SymbolMapping)> {
    var (baseTime, rest1) := TakeInt(data.bytes, 8, true);
    var (priceScale, rest2) := TakeInt(rest1, 4, true);
    var (count, rest3) := TakeInt(rest2, 4, true);
    var (symbolCount, rest4) := TakeInt(rest3, 4, true);
    if symbolCount < 0 then Panic
    else
      match TakeStrings(rest4, symbolCount)
      case Panic => Panic
      case Got(unique, rest5) =>
        match DecodeTail7(CompressedData(data.basePrice, baseTime, priceScale, count, [], [], [], [], [], [], []), rest5)
        case Panic => Panic
        case Got(c, rest6) => Got((c, SymbolMapping(unique, IndexMap(unique))), rest6)
  }

  /** Every field is in the range of its Go type and no length overflows an int32. */
  predicate WellShaped(c: CompressedData) {
    && MIN64 <= c.baseTime <= MAX64
    && -MAX32 - 1 <= c.priceScale <= MAX32 && -MAX32 - 1 <= c.count <= MAX32
    && (forall i :: 0 <= i < |c.priceDeltas| ==> -0x8000 <= c.priceDeltas[i] < 0x8000)
    && (forall i :: 0 <= i < |c.timeDeltas| ==> 0 <= c.timeDeltas[i] < 0x1_0000)
    && (forall i :: 0 <= i < |c.volumes| ==> 0 <= c.volumes[i] < 0x1_0000_0000)
    && |c.priceDeltas| <= MAX32 && |c.timeDeltas| <= MAX32 && |c.volumes| <= MAX32
    && |c.symbols| <= MAX32 && |c.exchanges| <= MAX32 && |c.marketTypes| <= MAX32 && |c.sides| <= MAX32
  }

  predicate WellNamed(unique: seq<string>) {
    |unique| <= MAX32 && AreByteStrings(unique)
  }

  lemma Tail4RoundTrip(c: CompressedData, c0: CompressedData, tail: seq<byte>)
    requires WellShaped(c)
    requires c0 == c.(symbols := [], exchanges := [], marketTypes := [], sides := [])
    ensures DecodeTail4(c0, Tail4(c)) == Got(c, [])
  {
    var t1 := EncodeBytes(c.sides) + [];
    var t2 := EncodeBytes(c.marketTypes) + t1;
    TakeBytesRoundTrip(c.symbols, EncodeBytes(c.exchanges) + t2);
    TakeBytesRoundTrip(c.exchanges, t2);
    TakeBytesRoundTrip(c.marketTypes, t1);
    TakeBytesRoundTrip(c.sides, []);
  }

  lemma Pow256Values()
    ensures Pow256(2) == 0x1_0000 && Pow256(4) == 0x1_0000_0000 && Pow256(8) == 0x1_0000_0000_0000_0000
  {
    assert Pow256(4) == 256 * (256 * Pow256(2));
    assert Pow256(8) == 256 * (256 * (256 * (256 * Pow256(4))));
  }

  lemma Tail7RoundTrip(c: CompressedData, c0: CompressedData)
    requires WellShaped(c)
    requires c0 == CompressedData(c.basePrice, c.baseTime, c.priceScale, c.count, [], [], [], [], [], [], [])
    ensures DecodeTail7(c0, Tail7(c)) == Got(c, [])
  {
    Pow256Values();
    var t1 := EncodeArray(c.volumes, 4) + Tail4(c);
    TakeArrayRoundTrip(c.priceDeltas, 2, true, EncodeArray(c.timeDeltas, 2) + t1);
    TakeArrayRoundTrip(c.timeDeltas, 2, false, t1);
    TakeArrayRoundTrip(c.volumes, 4, false, Tail4(c));
    Tail4RoundTrip(c, c0.(priceDeltas := c.priceDeltas, timeDeltas := c.timeDeltas, volumes := c.volumes), []);
  }

  /** Reading back a written frame gives the same data and leaves no byte unread. */
  lemma FrameRoundTrip(c: CompressedData, unique: seq<string>)
    requires WellShaped(c) && WellNamed(unique)
    ensures DecodeFrame(EncodeFrame(c, unique)) == Got((c, SymbolMapping(unique, IndexMap(unique))), [])
  {
    Pow256Values();
    var t9 := Tail9(c, unique);
    TakeIntRoundTrip(c.baseTime, 8, true, EncodeInt(c.priceScale, 4) + (EncodeInt(c.count, 4) + t9));
    TakeIntRoundTrip(c.priceScale, 4, true, EncodeInt(c.count, 4) + t9);
    TakeIntRoundTrip(c.count, 4, true, t9);
    TakeIntRoundTrip(|unique|, 4, true, EncodeStrings(unique) + Tail7(c));
    TakeStringsRoundTrip(unique, Tail7(c));
    Tail7RoundTrip(c, CompressedData(c.basePrice, c.baseTime, c.priceScale, c.count, [], [], [], [], [], [], []));
  }

  /** With at most 256 distinct names the table itself comes back: name i has index i. */
  lemma {:induction false} IndexMapIsInverse(unique: seq<string>)
    requires |unique| <= 256 && forall i, j :: 0 <= i < j < |unique| ==> unique[i] != unique[j]
    ensures IndexMap(unique).Keys == set s | s in unique
    ensures forall i :: 0 <= i < |unique| ==> IndexMap(unique)[unique[i]] == i
  {
    if unique != [] {
      var init := unique[..|unique| - 1];
      IndexMapIsInverse(init);
      forall i | 0 <= i < |unique|
        ensures unique[i] in IndexMap(unique) && IndexMap(unique)[unique[i]] == i
      {
        assert i < |unique| - 1 ==> init[i] == unique[i] && init[i] in init;
      }
      assert forall s :: s in unique <==> s in init || s == unique[|unique| - 1];
    }
  }
}
