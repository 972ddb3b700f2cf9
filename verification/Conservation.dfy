/** Multisets of a function's values over a sequence. */
module Bags {
  import opened Trades

  /** The multiset of f's values over a sequence. */
  function Bag<T, U>(f: T -> U, s: seq<T>): multiset<U> {
    if s == [] then multiset{} else Bag(f, s[..|s| - 1]) + multiset{f(s[|s| - 1])}
  }

  lemma {:induction false} SameBag<T, U>(f: T -> U, g: T -> U, a: seq<T>, b: seq<T>)
    requires |a| == |b| && forall i :: 0 <= i < |a| ==> f(a[i]) == g(b[i])
    ensures Bag(f, a) == Bag(g, b)
  {
    if a != [] {
      SameBag(f, g, a[..|a| - 1], b[..|b| - 1]);
    }
  }

  lemma {:induction false} BagConcat<T, U>(f: T -> U, a: seq<T>, b: seq<T>)
    ensures Bag(f, a + b) == Bag(f, a) + Bag(f, b)
  {
    if b == [] {
      assert a + b == a;
    } else {
      assert (a + b)[..|a + b| - 1] == a + b[..|b| - 1];
      BagConcat(f, a, b[..|b| - 1]);
    }
  }

  lemma TakeOut<T>(s: seq<T>, k: nat)
    requires k < |s|
    ensures multiset(s[..k] + s[k + 1..]) == multiset(s) - multiset{s[k]}
  {
    assert s == s[..k] + [s[k]] + s[k + 1..];
  }

  lemma BagOfSnoc<T, U>(f: T -> U, s: seq<T>, x: T)
    ensures Bag(f, s + [x]) == Bag(f, s) + multiset{f(x)}
  {
    assert (s + [x])[..|s + [x]| - 1] == s;
  }

  lemma BagOfOne<T, U>(f: T -> U, x: T)
    ensures Bag(f, []) == multiset{} && Bag(f, [x]) == multiset{f(x)}
  {
    assert [x][..0] == [];
  }

  lemma BagOfTwo<T, U>(f: T -> U, x: T, y: T)
    ensures Bag(f, [x, y]) == multiset{f(x), f(y)}
  {
    hide Bag;
    BagOfOne(f, x);
    BagOfSnoc(f, [x], y);
    assert [x] + [y] == [x, y];
  }

  lemma BagOfThree<T, U>(f: T -> U, x: T, y: T, z: T)
    ensures Bag(f, [x, y, z]) == multiset{f(x), f(y), f(z)}
  {
    hide Bag;
    BagOfTwo(f, x, y);
    BagOfSnoc(f, [x, y], z);
    assert [x, y] + [z] == [x, y, z];
  }

  lemma SwapLast<U>(a: multiset<U>, b: multiset<U>, c: multiset<U>)
    ensures (a + b) + c == (a + c) + b
  {}

  lemma BagWithout<T, U>(f: T -> U, s: seq<T>, k: nat)
    requires k < |s|
    ensures Bag(f, s) == Bag(f, s[..k] + s[k + 1..]) + multiset{f(s[k])}
  {
    hide Bag;
    var left, right := s[..k], s[k + 1..];
    assert s == (left + [s[k]]) + right;
    BagOfSnoc(f, left, s[k]);
    BagConcat(f, left + [s[k]], right);
    BagConcat(f, left, right);
    SwapLast(Bag(f, left), multiset{f(s[k])}, Bag(f, right));
  }

  /** Reordering a sequence does not change its bag. */
  lemma {:induction false} ReorderedBag<T, U>(f: T -> U, a: seq<T>, b: seq<T>)
    requires multiset(a) == multiset(b)
    ensures Bag(f, a) == Bag(f, b)
    decreases |a|
  {
    if a == [] {
      assert |multiset(b)| == |b|;
    } else {
      var n := |a| - 1;
      hide Bag;
      assert a[n] in multiset(a) && a[n] in b;
      assert a[..n] + [a[n]] == a;
      BagOfSnoc(f, a[..n], a[n]);
      var k :| 0 <= k < |b| && b[k] == a[n];
      TakeOut(a, n);
      TakeOut(b, k);
      assert a[..n] + a[n + 1..] == a[..n];
      ReorderedBag(f, a[..n], b[..k] + b[k + 1..]);
      BagWithout(f, b, k);
    }
  }

  lemma {:induction false} BagMember<T, U>(f: T -> U, s: seq<T>, x: U)
    ensures x in Bag(f, s) <==> exists t :: t in s && f(t) == x
  {
    if s != [] {
      var last := s[|s| - 1];
      BagMember(f, s[..|s| - 1], x);
      assert s == s[..|s| - 1] + [last];
    }
  }

  lemma {:induction false} BagSize<T, U>(f: T -> U, s: seq<T>)
    ensures |Bag(f, s)| == |s|
  {
    if s != [] {
      BagSize(f, s[..|s| - 1]);
    }
  }

  lemma Associate<U>(a: multiset<U>, b: multiset<U>, c: multiset<U>)
    ensures (a + b) + c == a + (b + c)
  {}

  lemma CrossSum<U>(a: multiset<U>, b: multiset<U>, c: multiset<U>, d: multiset<U>)
    ensures (a + b) + (c + d) == (a + c) + (b + d)
  {}

  lemma BagOfLast<T, U>(f: T -> U, s: seq<T>, p: T -> bool)
    requires s != []
    ensures var init, last := s[..|s| - 1], s[|s| - 1];
            Bag(f, Filter(s, p)) == if p(last) then Bag(f, Filter(init, p)) + multiset{f(last)} else Bag(f, Filter(init, p))
  {
    var init, last := s[..|s| - 1], s[|s| - 1];
    BagOfSnoc(f, Filter(init, p), last);
    assert Filter(init, p) + [] == Filter(init, p);
  }

  /** The bag of a selection is the sum over two selections that divide it. */
  lemma {:induction false} BagDivided<T, U>(f: T -> U, s: seq<T>, p: T -> bool, q: T -> bool, r: T -> bool)
    requires forall t :: t in s ==> p(t) == (q(t) || r(t)) && !(q(t) && r(t))
    ensures Bag(f, Filter(s, p)) == Bag(f, Filter(s, q)) + Bag(f, Filter(s, r))
  {
    if s != [] {
      var init, last := s[..|s| - 1], s[|s| - 1];
      assert last in s && forall t :: t in init ==> t in s;
      BagDivided(f, init, p, q, r);
      BagOfLast(f, s, p);
      BagOfLast(f, s, q);
      BagOfLast(f, s, r);
      var x := multiset{f(last)};
      hide Bag, Filter;
      if q(last) {
        SwapLast(Bag(f, Filter(init, q)), Bag(f, Filter(init, r)), x);
      } else if r(last) {
        Associate(Bag(f, Filter(init, q)), Bag(f, Filter(init, r)), x);
      }
    }
  }
}

/** Recompression keeps every trade's identity: symbol, exchange, market, side, price and quantity all
    survive a merge in the codec's regime, so a batch adds exactly its own trades to the cold ring. */
module Conservation {
  import opened Trades
  import opened Bags
  import opened DeltaCodec
  import opened CodecRoundTrip
  import opened CodecTheorems
  import opened Blocks
  import opened CompressedRings

  /** What a trade is, apart from its stamp. */
  datatype Identity = Identity(symbol: string, exchange: string, marketType: string, side: string,
                               price: Number, quantity: Number)

  function IdentityOf(t: TradeEvent): Identity {
    Identity(t.symbol, t.exchange, t.marketType, t.side, t.price, t.quantity)
  }

  function Identities(trades: seq<TradeEvent>): multiset<Identity> {
    Bag(IdentityOf, trades)
  }

  lemma IdentitiesConcat(a: seq<TradeEvent>, b: seq<TradeEvent>)
    ensures Identities(a + b) == Identities(a) + Identities(b)
  {
    BagConcat(IdentityOf, a, b);
  }

  /** Price and quantity have at most six decimals, the quantity in range. */
  predicate SixDecimals(t: TradeEvent) {
    && t.price.Num? && IsWhole(t.price.v * MICRO)
    && t.quantity.Num? && IsWhole(t.quantity.v * MICRO) && 0.0 <= t.quantity.v * MICRO < 4294967296.0
  }

  lemma DecimalPriceIsExact(first: real, price: real)
    requires IsWhole(first * MICRO) && IsWhole(price * MICRO)
    ensures DecodedPrice(first, Trunc(PriceDelta(first, price))) == price
  {
    assert (price - 0.0) * MICRO == price * MICRO && (first - 0.0) * MICRO == first * MICRO;
    PriceOnGridIsExact(0.0, first, price);
  }

  lemma ImageKeepsDecimalPrice(trades: seq<TradeEvent>, unique: seq<string>, i: nat)
    requires i < |trades| && AllParse(trades) && PricesFit(trades, |trades|)
    requires IsWhole(trades[0].price.v * MICRO) && IsWhole(trades[i].price.v * MICRO)
    ensures Image(trades, unique)[i].price == trades[i].price
  {
    ImagePrice(trades, unique, i);
    NoPriceRebase(trades, |trades|);
    DecimalPriceIsExact(trades[0].price.v, trades[i].price.v);
  }

  lemma ImageKeepsIdentity(trades: seq<TradeEvent>, unique: seq<string>, i: nat)
    requires i < |trades| && AllParse(trades) && PricesFit(trades, |trades|) && KnownNames(trades[i])
    requires SixDecimals(trades[0]) && SixDecimals(trades[i])
    requires Lists(unique, trades) && |unique| <= 256
    ensures IdentityOf(Image(trades, unique)[i]) == IdentityOf(trades[i]) && KnownNames(Image(trades, unique)[i])
  {
    hide Image, Run, KnownNames, IsWhole, Lists, PricesFit, AllParse;
    ImageKeepsDecimalPrice(trades, unique, i);
    GridQuantity(trades, unique, i);
    ImageNamesFixed(trades, unique, i);
    SymbolField(trades, unique, i);
  }

  /** A trade of the codec's regime for a table of names. */
  predicate Regular(t: TradeEvent, names: seq<string>) {
    SixDecimals(t) && KnownNames(t) && t.symbol in names
  }

  /** The regime a caller can check before storing: six decimals, known names, at most 256 symbols, and
      prices within int16 micro-units of each other. */
  predicate InRegime(trades: seq<TradeEvent>, names: seq<string>) {
    && |names| <= 256
    && (forall t :: t in trades ==> Regular(t, names))
    && forall t, u :: t in trades && u in trades ==> PairFits(t.price, u.price)
  }

  /** Every trade of a has the identity of some trade of b. */
  predicate Mirrored(a: seq<TradeEvent>, b: seq<TradeEvent>) {
    forall t :: t in a ==> exists u :: u in b && IdentityOf(u) == IdentityOf(t)
  }

  lemma RegularByIdentity(t: TradeEvent, u: TradeEvent, names: seq<string>)
    requires Regular(u, names) && IdentityOf(u) == IdentityOf(t)
    ensures Regular(t, names)
  {
  }

  /** The regime depends on identities only. */
  lemma RegimeByIdentity(a: seq<TradeEvent>, b: seq<TradeEvent>, names: seq<string>)
    requires InRegime(b, names) && Mirrored(a, b)
    ensures InRegime(a, names)
  {
    hide Regular, PairFits;
    forall t | t in a ensures Regular(t, names) {
      var u :| u in b && IdentityOf(u) == IdentityOf(t);
      RegularByIdentity(t, u, names);
    }
    forall t, u | t in a && u in a ensures PairFits(t.price, u.price) {
      var t' :| t' in b && IdentityOf(t') == IdentityOf(t);
      var u' :| u' in b && IdentityOf(u') == IdentityOf(u);
      assert PairFits(t'.price, u'.price);
    }
  }

  lemma SubBagIsMirrored(a: seq<TradeEvent>, b: seq<TradeEvent>)
    requires Identities(a) <= Identities(b)
    ensures Mirrored(a, b)
  {
    forall t | t in a ensures exists u :: u in b && IdentityOf(u) == IdentityOf(t) {
      BagMember(IdentityOf, a, IdentityOf(t));
      BagMember(IdentityOf, b, IdentityOf(t));
    }
  }

  lemma RegimeParses(trades: seq<TradeEvent>, names: seq<string>)
    requires InRegime(trades, names) && trades != []
    ensures AllParse(trades) && PricesFit(trades, |trades|)
  {
    hide IsWhole, KnownNames;
    forall i | 0 <= i < |trades| ensures Parses(trades[i]) {
      assert Regular(trades[i], names);
    }
    forall i, j | 0 <= i < |trades| && 0 <= j < |trades| ensures PairFits(trades[i].price, trades[j].price) {
      assert trades[i] in trades && trades[j] in trades;
    }
    PairwiseFitsFirst(trades);
  }

  lemma FewSymbols(sorted: seq<TradeEvent>, unique: seq<string>, names: seq<string>)
    requires Lists(unique, sorted) && InRegime(sorted, names)
    ensures |unique| <= |names|
  {
    hide SixDecimals, KnownNames, PairFits;
    forall s | s in unique ensures s in names {
      var i :| 0 <= i < |unique| && unique[i] == s;
      var j :| 0 <= j < |sorted| && sorted[j].symbol == unique[i];
      assert Regular(sorted[j], names);
    }
    DistinctIsNoLonger(unique, names);
  }

  lemma ImageKeepsIdentityAt(sorted: seq<TradeEvent>, unique: seq<string>, names: seq<string>, i: nat)
    requires i < |sorted| && Lists(unique, sorted) && InRegime(sorted, names)
    ensures sorted[0].price.Num? && IdentityOf(Image(sorted, unique)[i]) == IdentityOf(sorted[i])
  {
    RegimeParses(sorted, names);
    FewSymbols(sorted, unique, names);
    assert sorted[i] in sorted && sorted[0] in sorted;
    assert Regular(sorted[i], names) && Regular(sorted[0], names);
    hide Image, KnownNames, IsWhole, PairFits, Lists, PricesFit, AllParse, IdentityOf;
    ImageKeepsIdentity(sorted, unique, i);
  }

  lemma ImageKeepsIdentities(sorted: seq<TradeEvent>, unique: seq<string>, names: seq<string>)
    requires sorted != [] && sorted[0].price.Num? && Lists(unique, sorted) && InRegime(sorted, names)
    ensures Identities(Image(sorted, unique)) == Identities(sorted)
  {
    hide Image, InRegime, Lists, IdentityOf, Bag;
    forall i | 0 <= i < |sorted| ensures IdentityOf(Image(sorted, unique)[i]) == IdentityOf(sorted[i]) {
      ImageKeepsIdentityAt(sorted, unique, names, i);
    }
    SameBag(IdentityOf, IdentityOf, Image(sorted, unique), sorted);
  }

  /** Merging a group into a block neither loses, doubles nor alters a trade's identity. */
  lemma MergeConservesIdentities(old_: seq<TradeEvent>, new_: seq<TradeEvent>, after: seq<TradeEvent>, names: seq<string>)
    requires Merged(old_, new_, after) && InRegime(old_ + new_, names)
    ensures Identities(after) == Identities(old_) + Identities(new_)
  {
    hide InRegime, Image, Lists, Bag;
    var sorted: seq<TradeEvent>, unique: seq<string> :| IsMerge(old_, new_, after, sorted, unique);
    assert multiset(sorted) == multiset(old_ + new_);
    ReorderedRegime(old_ + new_, sorted, names);
    ImageKeepsIdentities(sorted, unique, names);
    ReorderedBag(IdentityOf, sorted, old_ + new_);
    BagConcat(IdentityOf, old_, new_);
  }

  lemma ReorderedRegime(a: seq<TradeEvent>, b: seq<TradeEvent>, names: seq<string>)
    requires multiset(a) == multiset(b) && InRegime(a, names)
    ensures InRegime(b, names)
  {
    forall t | t in b ensures t in a {
      assert t in multiset(b);
    }
    hide Regular, PairFits;
  }

  /** Each block and its group of a batch, together, are in the regime. */
  predicate BlocksInRegime(blocks: seq<Block>, trades: seq<TradeEvent>, names: seq<string>)
    requires |blocks| > 0
  {
    forall i :: 0 <= i < |blocks| ==> InRegime(Held(blocks[i]) + GroupOf(trades, i, |blocks|), names)
  }

  lemma BlockConserves(before: Block, after: Block, group: seq<TradeEvent>, names: seq<string>)
    requires Settled(before, after, group, false) && InRegime(Held(before) + group, names)
    ensures Identities(Held(after)) == Identities(Held(before)) + Identities(group)
  {
    hide Held, InRegime, Merged;
    if group != [] {
      MergeConservesIdentities(Held(before), group, Held(after), names);
    }
  }

  function FirstHomes(trades: seq<TradeEvent>, n: nat, capacity: nat): seq<TradeEvent>
    requires capacity > 0
  {
    Filter(trades, (t: TradeEvent) => Home(t, capacity) < n)
  }

  lemma NextHome(trades: seq<TradeEvent>, n: nat, capacity: nat)
    requires capacity > 0
    ensures Identities(FirstHomes(trades, n + 1, capacity))
         == Identities(FirstHomes(trades, n, capacity)) + Identities(GroupOf(trades, n, capacity))
  {
    BagDivided(IdentityOf, trades, (t: TradeEvent) => Home(t, capacity) < n + 1, (t: TradeEvent) => Home(t, capacity) < n,
               (t: TradeEvent) => Home(t, capacity) == n);
  }

  lemma AllHomes(trades: seq<TradeEvent>, capacity: nat)
    requires capacity > 0
    ensures FirstHomes(trades, 0, capacity) == [] && FirstHomes(trades, capacity, capacity) == trades
  {
    FilterNone(trades, (t: TradeEvent) => Home(t, capacity) < 0);
    FilterAll(trades, (t: TradeEvent) => Home(t, capacity) < capacity);
  }

  lemma {:induction false} FilterAll<T>(s: seq<T>, p: T -> bool)
    requires forall t :: t in s ==> p(t)
    ensures Filter(s, p) == s
  {
    if s != [] {
      assert s[|s| - 1] in s;
      FilterAll(s[..|s| - 1], p);
    }
  }

  lemma HeldSnoc(blocks: seq<Block>, n: nat)
    requires n < |blocks|
    ensures AllHeld(blocks[..n + 1]) == AllHeld(blocks[..n]) + Held(blocks[n])
  {
    assert blocks[..n + 1][..n] == blocks[..n];
  }

  lemma {:induction false} BlocksConserve(before: seq<Block>, after: seq<Block>, trades: seq<TradeEvent>, names: seq<string>, n: nat)
    requires |after| == |before| > 0 && n <= |before|
    requires AllSettled(before, after, trades) && BlocksInRegime(before, trades, names)
    ensures Identities(AllHeld(after[..n])) == Identities(AllHeld(before[..n])) + Identities(FirstHomes(trades, n, |before|))
  {
    if n == 0 {
      AllHomes(trades, |before|);
    } else {
      var m := n - 1;
      var group := GroupOf(trades, m, |before|);
      BlocksConserve(before, after, trades, names, m);
      BlockConserves(before[m], after[m], group, names);
      hide AllHeld, Held, Bag, Settled, InRegime, GroupOf, FirstHomes, AllSettled, BlocksInRegime;
      HeldSnoc(before, m);
      HeldSnoc(after, m);
      BagConcat(IdentityOf, AllHeld(before[..m]), Held(before[m]));
      BagConcat(IdentityOf, AllHeld(after[..m]), Held(after[m]));
      NextHome(trades, m, |before|);
      CrossSum(Identities(AllHeld(before[..m])), Identities(FirstHomes(trades, m, |before|)),
               Identities(Held(before[m])), Identities(group));
      hide Identities;
    }
  }

  /** A batch that arrives in the cold ring adds exactly its own identities to it. */
  lemma BatchConservesIdentities(before: seq<Block>, after: seq<Block>, trades: seq<TradeEvent>, names: seq<string>)
    requires Outcome(before, after, trades, Done) && BlocksInRegime(before, trades, names)
    ensures Identities(AllHeld(after)) == Identities(AllHeld(before)) + Identities(trades)
  {
    hide AllHeld, Held, InRegime, Settled, GroupOf, FirstHomes, AllSettled, BlocksInRegime, AllGrown, AllStartWell, SomeStartsBadly;
    BlocksConserve(before, after, trades, names, |before|);
    AllHomes(trades, |before|);
    assert before[..|before|] == before && after[..|after|] == after;
  }
}
