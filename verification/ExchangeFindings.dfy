/** Concrete inputs on which a property one would expect of the exchange fails, next
    to the exact conditions proved elsewhere. */
module ExchangeFindings {
  import opened Numbers
  import opened FeeMath
  import opened Assets
  import opened Pool
  import opened DirectTrade
  import opened Matching
  import opened Resolution
  import opened Blocks
  import opened Statements

  // ----- a constant-product pool -----

  function RoundedUp(n: nat, d: nat): Option<Balance> {
    if d == 0 || n / d + 1 > MAX then None else Some(n / d + 1)
  }

  function OutGivenIn(reserveIn: nat, reserveOut: nat, amount: nat): Option<Balance> {
    if reserveIn == 0 then None else RoundedUp(reserveOut * amount, reserveIn + amount)
  }

  function InGivenOut(reserveOut: nat, reserveIn: nat, amount: nat): Option<Balance> {
    if amount >= reserveOut then None else RoundedUp(reserveIn * amount, reserveOut - amount)
  }

  function SpotPrice(reserveIn: nat, reserveOut: nat, amount: nat): Option<Balance> {
    if reserveIn == 0 || amount * reserveOut / reserveIn > MAX then None else Some(amount * reserveOut / reserveIn)
  }

  /** Constant-product pools with the default fee. The native asset is 7. Account 8
      holds the pool of any asset with it, account 9 that of two other assets; no asset
      has a pool with itself. */
  ghost predicate ConstantProduct(p: Pools) {
    && p.native == 7 && p.fee == DEFAULT_FEE
    && (forall q :: p.exists_(q) == (q.assetIn != q.assetOut))
    && (forall q :: p.account(q) == if q.assetIn == 7 || q.assetOut == 7 then 8 else 9)
    && (forall i, o, a {:trigger OutGivenIn(i, o, a)} :: p.outGivenIn(i, o, a) == OutGivenIn(i, o, a))
    && (forall i, o, a {:trigger InGivenOut(o, i, a)} :: p.inGivenOut(o, i, a) == InGivenOut(o, i, a))
    && (forall i, o, a {:trigger SpotPrice(i, o, a)} :: p.spotPrice(i, o, a) == SpotPrice(i, o, a))
  }

  /** There is one. */
  lemma ConstantProductExists() returns (p: Pools)
    ensures ConstantProduct(p)
  {
    p := Pools((q: AssetPair) => q.assetIn != q.assetOut,
               (q: AssetPair) => if q.assetIn == 7 || q.assetOut == 7 then 8 else 9,
               OutGivenIn, InGivenOut, SpotPrice, 7, DEFAULT_FEE);
  }

  // ----- a failed preparation -----

  /** Seller 1 gives 1000 of asset 0, buyer 2 is frozen in asset 1: the second
      reservation fails, and the first one is never given back. */
  lemma FailedPreparationLeavesReserve(pool: AccountId)
    ensures var a := Intention(1, AssetPair(0, 1), 1000, 1000, 0, false, SELL, 0);
            var c := Intention(2, AssetPair(1, 0), 1000, 1000, 0, false, SELL, 1);
            var b: Book := map[(0, 1) := Holding(1000, 0, 0), (1, 2) := Holding(1000, 0, 1)];
            var p := Prepare(b, Trade(a, c, 1000, 1000), pool);
            && CanHoldAll(b, Reserved(p)) && !p.ok
            && Reverted(b, p) == b[(0, 1) := Holding(0, 1000, 0)]
  {
    var a := Intention(1, AssetPair(0, 1), 1000, 1000, 0, false, SELL, 0);
    var c := Intention(2, AssetPair(1, 0), 1000, 1000, 0, false, SELL, 1);
    var b: Book := map[(0, 1) := Holding(1000, 0, 0), (1, 2) := Holding(1000, 0, 1)];
    var t := Trade(a, c, 1000, 1000);
    var first := Payments(t)[..1];
    assert first == [] + [Move(1, 2, 0, 1000)];
    HoldOneMore(b, [], Move(1, 2, 0, 1000));
    assert CanHoldAll(b, first);
    var held := HoldAll(b, first);
    assert held == b[(0, 1) := Holding(0, 1000, 0)];
    assert Payments(t) == first + [Move(2, 1, 1, 1000)];
    HoldOneMore(b, first, Move(2, 1, 1, 1000));
    var p := Prepare(b, t, pool);
    assert p == Preparation(false, [], first);
    assert Reserved(p) == first;
  }

  // ----- a used-up main intention -----

  /** Account 1 sells 10000 of asset 0 and reckons with 1000 of asset 1. */
  function Main(): Intention { Intention(1, AssetPair(0, 1), 10000, 1000, 0, false, SELL, 0) }

  /** Account 2 wants exactly that. */
  function First(): Intention { Intention(2, AssetPair(1, 0), 1000, 10000, 0, false, SELL, 1) }

  /** Account 3 wants to buy the same once more. */
  function Second(): Intention { Intention(3, AssetPair(1, 0), 1000, 10000, 3000, false, BUY, 2) }

  function Opening(): Book {
    map[(0, 1) := Holding(10000, 0, 0), (1, 1) := Holding(2, 0, 0),
        (0, 2) := Holding(20, 0, 0), (1, 2) := Holding(1000, 0, 0),
        (1, 3) := Holding(5000, 0, 0),
        (0, 9) := Holding(100000, 0, 0), (1, 9) := Holding(10000, 0, 0)]
  }

  lemma FirstIsReservable()
    ensures Reservable(Opening(), Trade(Main(), First(), 10000, 1000), 9)
  {
    assert JustFee(10000, DEFAULT_FEE) == Some(20) && JustFee(1000, DEFAULT_FEE) == Some(2);
  }

  /** The moves of the first match leave account 3 alone and bring the pool its fees. */
  lemma FirstMoves(s: Slot)
    requires s == (1, 3) || s == (0, 9) || s == (1, 9)
    ensures Net(TradeMoves(Trade(Main(), First(), 10000, 1000), 9), s) ==
            if s == (0, 9) then 20 else if s == (1, 9) then 2 else 0
  {
    assert JustFee(10000, DEFAULT_FEE) == Some(20) && JustFee(1000, DEFAULT_FEE) == Some(2);
    FourMoves(TradeMoves(Trade(Main(), First(), 10000, 1000), 9), s);
  }

  /** The state the second match meets. */
  predicate AfterFirst(b: Book) {
    && At(b, (1, 3)).free == 5000 && At(b, (1, 3)).frozen == 0
    && At(b, (0, 9)).free == 100020 && At(b, (0, 9)).frozen == 0
    && At(b, (1, 9)).free == 10002
  }

  lemma FirstLedger(b: Book, t: Trade)
    requires b == Opening() && t == Trade(Main(), First(), 10000, 1000)
    ensures SettleDirectly(b, t, 9).ok && AfterFirst(SettleDirectly(b, t, 9).book)
  {
    FirstIsReservable();
    ReservableAt(b, t, 9, (1, 3));
    ReservableAt(b, t, 9, (0, 9));
    ReservableAt(b, t, 9, (1, 9));
    FirstMoves((1, 3));
    FirstMoves((0, 9));
    FirstMoves((1, 9));
    assert At(b, (1, 3)) == Holding(5000, 0, 0) && At(b, (0, 9)) == Holding(100000, 0, 0) && At(b, (1, 9)).free == 10000;
  }

  /** The first match uses the main intention up and leaves account 3 alone. */
  lemma FirstMatch(p: Pools)
    ensures var r := MatchOne(p, Opening(), Main(), Main(), First(), 9);
            r.step == Settled(10000, 1000, None) && r.next == Main().(amountIn := 0) && AfterFirst(r.book)
  {
    FirstLedger(Opening(), Trade(Main(), First(), 10000, 1000));
  }

  /** The second one pays for nothing. */
  lemma SecondMatch(p: Pools, b: Book)
    requires ConstantProduct(p) && AfterFirst(b)
    ensures MatchOne(p, b, Main().(amountIn := 0), Main(), Second(), 9).step ==
            Settled(0, 1000, Some(AMMTransfer(3, AssetPair(1, 0), 10000, 1114, false, 0)))
  {
    var main, m := Main().(amountIn := 0), Second();
    var t := Trade(main, m, 0, 1000);
    var amm := AMMTransfer(3, AssetPair(1, 0), 10000, 1114, false, 0);
    assert JustFee(0, DEFAULT_FEE) == Some(0) && JustFee(1000, DEFAULT_FEE) == Some(2) && JustFee(1112, DEFAULT_FEE) == Some(2);
    assert InGivenOut(100020, 10002, 10000) == Some(1112);
    assert ValidateRest(p, b, main, m) == Some(amm);
    assert Reservable(b, t, 9);
    ExhaustedTakes(p, b, main, Main(), m, 9);
  }

  lemma BothSettle(p: Pools)
    requires ConstantProduct(p)
    ensures var first := MatchOne(p, Opening(), Main(), Main(), First(), 9);
            && first.step == Settled(10000, 1000, None)
            && MatchOne(p, first.book, first.next, Main(), Second(), 9).step ==
               Settled(0, 1000, Some(AMMTransfer(3, AssetPair(1, 0), 10000, 1114, false, 0)))
  {
    FirstMatch(p);
    SecondMatch(p, MatchOne(p, Opening(), Main(), Main(), First(), 9).book);
  }

  lemma MatchTwo(p: Pools, b: Book, main: Intention, x: Intention, y: Intention, pair: AccountId)
    ensures var first := MatchOne(p, b, main, main, x, pair);
            MatchAll(p, b, main, [x, y], pair).steps ==
            [first.step, MatchOne(p, first.book, first.next, main, y, pair).step]
  {
    assert [x, y][..1] == [x] && [x][..0] == [];
    var first := MatchOne(p, b, main, main, x, pair);
    assert MatchAll(p, b, main, [x], pair) == Progress([] + [first.step], first.next, first.book);
  }

  lemma BothAreMatched()
    ensures Group(SortDescending([First(), Second()]), Main().amountIn) == [First(), Second()]
  {
    var ms := [First(), Second()];
    assert ms[..1] == [First()] && ms[..1][..0] == [] && ms[1..] == [Second()];
    assert SortDescending(ms[..1]) == [First()];
    assert Insert([First()], Second()) == [First()] + Insert([], Second());
    assert SortDescending(ms) == ms;
    assert GroupLength(ms[1..], 1000, 10000) == 1;
  }

  /** Both are matched with the main intention, which gives all it has to the first
      and still takes as much again from the second. */
  lemma ExhaustedMainPaysNothing(p: Pools)
    requires ConstantProduct(p)
    ensures Group(SortDescending([First(), Second()]), Main().amountIn) == [First(), Second()]
    ensures MatchAll(p, Opening(), Main(), [First(), Second()], 9).steps ==
            [Settled(10000, 1000, None), Settled(0, 1000, Some(AMMTransfer(3, AssetPair(1, 0), 10000, 1114, false, 0)))]
  {
    BothAreMatched();
    BothSettle(p);
    MatchTwo(p, Opening(), Main(), First(), Second(), 9);
  }

  // ----- a sale that beats its limit -----

  /** Account 2 sells twice as much as the main intention takes, for 5000 or more. */
  function Large(): Intention { Intention(2, AssetPair(1, 0), 2000, 20000, 5000, false, SELL, 1) }

  function Wealthy(): Book {
    map[(0, 1) := Holding(10000, 0, 0), (1, 1) := Holding(2, 0, 0),
        (0, 2) := Holding(20, 0, 0), (1, 2) := Holding(2000, 0, 0),
        (0, 9) := Holding(100000, 0, 0), (1, 9) := Holding(10000, 0, 0)]
  }

  /** Account 2 would get 10000 directly and 9075 from the pool, far above its limit,
      and both trades would go through. It is skipped. */
  lemma OverfilledSaleIsSkipped(p: Pools)
    requires ConstantProduct(p)
    ensures var amm := AMMTransfer(2, AssetPair(1, 0), 1000, 9075, false, 0);
            var t := Trade(Main(), Large(), 10000, 1000);
            && ValidateRest(p, Wealthy(), Main(), Large()) == Some(amm)
            && Main().amountIn + amm.amountOut >= Large().tradeLimit
            && Reservable(Wealthy(), t, 9) && ExecuteAmm(p, AllReserved(Wealthy(), t, 9), SELL, amm).Some?
            && MatchOne(p, Wealthy(), Main(), Main(), Large(), 9).step == Skipped
  {
    var t := Trade(Main(), Large(), 10000, 1000);
    var amm := AMMTransfer(2, AssetPair(1, 0), 1000, 9075, false, 0);
    assert JustFee(10000, DEFAULT_FEE) == Some(20) && JustFee(1000, DEFAULT_FEE) == Some(2);
    assert OutGivenIn(10000, 100000, 998) == Some(9075);
    assert ValidateRest(p, Wealthy(), Main(), Large()) == Some(amm);
    assert Reservable(Wealthy(), t, 9);
    RestOfSaleChecked(p, Wealthy(), Main(), Large(), 9);
  }

  // ----- a purchase that gets more than it asked for -----

  /** Account 1 buys 1000 of asset 1 for at most 12000 of asset 0. */
  function Purchase(): Intention { Intention(1, AssetPair(0, 1), 10000, 1000, 12000, false, BUY, 0) }

  /** Account 2 sells 1500 for 5000, at any price. */
  function Offer(): Intention { Intention(2, AssetPair(1, 0), 1500, 5000, 0, false, SELL, 1) }

  function Stocked(): Book {
    map[(0, 1) := Holding(20000, 0, 0),
        (0, 2) := Holding(3, 0, 0), (1, 2) := Holding(1500, 0, 0),
        (0, 9) := Holding(100000, 0, 0), (1, 9) := Holding(10000, 0, 0)]
  }

  lemma MatchAlone(p: Pools, b: Book, main: Intention, m: Intention, pair: AccountId)
    ensures var o := MatchOne(p, b, main, main, m, pair);
            MatchAll(p, b, main, [m], pair) == Progress([o.step], o.next, o.book)
  {
    assert [m][..0] == [];
  }

  /** The offer can be traded, and the pool keeps what it has of asset 1. */
  lemma OfferIsReservable(t: Trade)
    requires t == Trade(Purchase(), Offer(), 5000, 1500)
    ensures Reservable(Stocked(), t, 9) && Net(TradeMoves(t, 9), (1, 9)) == 0
  {
    assert JustFee(5000, DEFAULT_FEE) == Some(10) && JustFee(1500, DEFAULT_FEE) == Some(3);
    FourMoves(TradeMoves(t, 9), (1, 9));
  }

  lemma OfferSettles(p: Pools)
    ensures var r := MatchOne(p, Stocked(), Purchase(), Purchase(), Offer(), 9);
            && r.step == Settled(5000, 1500, None)
            && r.next == Purchase().(amountIn := 5000, amountOut := MAX - 499, tradeLimit := 10500)
            && At(r.book, (1, 9)).free == 10000
  {
    var t := Trade(Purchase(), Offer(), 5000, 1500);
    OfferIsReservable(t);
    ReservableAt(Stocked(), t, 9, (1, 9));
  }

  /** No pool sells that much. */
  lemma RestIsRefused(p: Pools, b: Book, i: Intention)
    requires i.kind == BUY && FreeOf(b, i.assets.assetOut, p.account(i.assets)) <= i.amountOut
    ensures ResolveSingle(p, b, i) == Alone(None, b)
  {
  }

  lemma PurchaseIsVerified(p: Pools)
    requires ConstantProduct(p)
    ensures Validate(p, Stocked(), Purchase()).Some?
  {
    assert InGivenOut(10000, 100000, 1000) == Some(11112) && JustFee(11112, DEFAULT_FEE) == Some(22);
  }

  lemma OfferIsMatched()
    ensures Group(SortDescending([Offer()]), Purchase().amountIn) == [Offer()]
  {
    assert [Offer()][..0] == [] && [Offer()][1..] == [];
    assert SortDescending([Offer()]) == [Offer()];
  }

  /** The purchase is verified and matched with the offer alone. It gets 1500 instead of
      1000; what it still wants wraps to nearly 2^128, which no pool can sell, so its
      rest is not traded. */
  lemma PurchaseIsOverfilled(p: Pools)
    requires ConstantProduct(p)
    ensures Validate(p, Stocked(), Purchase()).Some?
    ensures Group(SortDescending([Offer()]), Purchase().amountIn) == [Offer()]
    ensures var r := ResolveMatched(p, Stocked(), Purchase(), [Offer()], 9);
            r.steps == [Settled(5000, 1500, None)] && r.residual == None && 1500 > Purchase().amountOut
  {
    PurchaseIsVerified(p);
    OfferIsMatched();
    OfferSettles(p);
    MatchAlone(p, Stocked(), Purchase(), Offer(), 9);
    var r := MatchOne(p, Stocked(), Purchase(), Purchase(), Offer(), 9);
    RestIsRefused(p, r.book, r.next);
  }

  // ----- a sale used up below its limit -----

  /** Account 1 sells 10000 of asset 0 for 1500 or more. */
  function Cautious(): Intention { Intention(1, AssetPair(0, 1), 10000, 1000, 1500, false, SELL, 0) }

  /** Account 3 buys more than that. */
  function Buyer(): Intention { Intention(3, AssetPair(1, 0), 1100, 11000, 20000, false, BUY, 1) }

  function Deep(): Book {
    map[(0, 1) := Holding(10000, 0, 0), (1, 1) := Holding(20, 0, 0),
        (1, 3) := Holding(2000, 0, 0),
        (0, 9) := Holding(100000, 0, 0), (1, 9) := Holding(20000, 0, 0)]
  }

  /** The pool would pay 1815 for the sale. Matched directly, all of it goes for 1000,
      against its limit of 1500. */
  lemma SaleIsUsedUpBelowLimit(p: Pools)
    requires ConstantProduct(p)
    ensures Validate(p, Deep(), Cautious()).Some?
    ensures var r := MatchAll(p, Deep(), Cautious(), [Buyer()], 9);
            && r.steps == [Settled(10000, 1000, Some(AMMTransfer(3, AssetPair(1, 0), 1000, 203, false, 0)))]
            && r.next.amountIn == 0 && 1000 < Cautious().tradeLimit
  {
    var t := Trade(Cautious(), Buyer(), 10000, 1000);
    var amm := AMMTransfer(3, AssetPair(1, 0), 1000, 203, false, 0);
    assert OutGivenIn(100000, 20000, 9980) == Some(1815) && InGivenOut(100000, 20000, 1000) == Some(203);
    assert JustFee(10000, DEFAULT_FEE) == Some(20) && JustFee(1000, DEFAULT_FEE) == Some(2) && JustFee(203, DEFAULT_FEE) == Some(0);
    assert ValidateRest(p, Deep(), Cautious(), Buyer()) == Some(amm);
    assert Reservable(Deep(), t, 9);
    PurchaseExecutable(p, AllReserved(Deep(), t, 9), amm);
    SettlesIff(p, Deep(), t, 9, BUY, amm);
    MatchAlone(p, Deep(), Cautious(), Buyer(), 9);
  }

  // ----- discounts -----

  /** Account 1 sells 10000 of asset 0 with a discount. */
  function Discounted(): Intention { Intention(1, AssetPair(0, 1), 10000, 1000, 0, true, SELL, 0) }

  function WithNative(): Book {
    map[(0, 1) := Holding(10000, 0, 0), (7, 1) := Holding(50, 0, 0),
        (0, 9) := Holding(100000, 0, 0), (1, 9) := Holding(10000, 0, 0),
        (0, 8) := Holding(100000, 0, 0), (7, 8) := Holding(100000, 0, 0)]
  }

  lemma ProcessAlone(p: Pools, b: Book, i: Intention, pair: AccountId)
    ensures Process(p, b, [], [i], pair).book == ResolveSingle(p, b, i).book
  {
    assert [i][1..] == [] && [i][..0] == [];
    assert SortDescending([i]) == [i];
    var r := Block([], [i], b);
    assert ResolveRest(p, r) == ResolveNext(p, r);
  }

  /** The discounted fee is 7, worth 7 of the native asset: finalizing a pair with this
      single sale burns them. */
  lemma DiscountBurnsNative(p: Pools)
    requires ConstantProduct(p)
    ensures var r := Process(p, WithNative(), [], [Discounted()], 9);
            AssetTotal(r.book, 7) + 7 == AssetTotal(WithNative(), 7)
  {
    var t := AMMTransfer(1, AssetPair(0, 1), 10000, 909, true, 7);
    assert JustFee(10000, DISCOUNTED_FEE) == Some(7);
    assert OutGivenIn(100000, 10000, 9993) == Some(909) && SpotPrice(100000, 100000, 7) == Some(7);
    assert Validate(p, WithNative(), Discounted()) == Some(t);
    VerifiedTrades(p, WithNative(), Discounted());
    SingleExact(p, WithNative(), Discounted());
    ProcessAlone(p, WithNative(), Discounted(), 9);
  }

  /** Account 1 buys 10000 of asset 0 with the native asset, at a discount. */
  function PaidInNative(): Intention { Intention(1, AssetPair(7, 0), 12000, 10000, 20000, true, BUY, 0) }

  function Tight(): Book {
    map[(7, 1) := Holding(11120, 0, 0), (0, 8) := Holding(100000, 0, 0), (7, 8) := Holding(100000, 0, 0)]
  }

  /** The price is 11119 and the discount costs 7, both in the native asset. With 11120
      the purchase is verified, and cannot be executed. */
  lemma VerifiedIsUnaffordable(p: Pools)
    requires ConstantProduct(p)
    ensures Validate(p, Tight(), PaidInNative()) == Some(AMMTransfer(1, AssetPair(7, 0), 10000, 11119, true, 7))
    ensures ResolveSingle(p, Tight(), PaidInNative()) == Alone(None, Tight())
  {
    assert InGivenOut(100000, 100000, 10000) == Some(11112) && JustFee(11112, DISCOUNTED_FEE) == Some(7);
    assert SpotPrice(100000, 100000, 7) == Some(7);
    VerifiedTrades(p, Tight(), PaidInNative());
  }
}
