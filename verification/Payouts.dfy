/** Who pays whom: what trades do to the balances of the traders and the pool, said
    without the list of moves that brings it about. */
module Payouts {
  import opened Numbers
  import opened FeeMath
  import opened Assets
  import opened Pool
  import opened DirectTrade
  import opened Resolution
  import opened Statements

  // ----- a direct trade -----

  /** The default fee of two in a thousand, rounded down. */
  function FeeOn(n: nat): nat { n * 2 / 1000 }

  /** What the first trader pays the pool, and in which asset: a seller out of what it
      gets, a buyer on top of what it gives. Two sellers pay for what they get. */
  function FeeOfA(t: Trade): nat {
    if t.a.kind == SELL && t.b.kind == SELL then FeeOn(t.fromB) else FeeOn(t.fromA)
  }

  function FeeAssetOfA(t: Trade): AssetId { if t.a.kind == SELL then t.a.assets.assetOut else t.a.assets.assetIn }

  /** The same for the second trader. */
  function FeeOfB(t: Trade): nat {
    if t.a.kind == SELL && t.b.kind == SELL then FeeOn(t.fromA) else FeeOn(t.fromB)
  }

  function FeeAssetOfB(t: Trade): AssetId { if t.b.kind == SELL then t.b.assets.assetOut else t.b.assets.assetIn }

  /** What a trade brings to one account in one asset. */
  function TradeGain(t: Trade, pool: AccountId, s: Slot): int {
    Leg(t.a.assets.assetIn, t.a.who, t.b.who, t.fromA, s) + Leg(t.a.assets.assetOut, t.b.who, t.a.who, t.fromB, s)
    + Leg(FeeAssetOfA(t), t.a.who, pool, FeeOfA(t), s) + Leg(FeeAssetOfB(t), t.b.who, pool, FeeOfB(t), s)
  }

  lemma FeeIsTwoInAThousand(n: Balance)
    ensures JustFee(n, DEFAULT_FEE).Some? ==> JustFee(n, DEFAULT_FEE).value == FeeOn(n)
  {
  }

  function LegOf(m: Move, s: Slot): int { Leg(m.asset, m.source, m.dest, m.amount, s) }

  lemma LegIsInLessOut(m: Move, s: Slot)
    ensures LegOf(m, s) == In(m, s) - Out(m, s)
  {
  }

  lemma FourLegs(ms: seq<Move>, s: Slot)
    requires |ms| == 4
    ensures Net(ms, s) == LegOf(ms[0], s) + LegOf(ms[1], s) + LegOf(ms[2], s) + LegOf(ms[3], s)
  {
    FourMoves(ms, s);
    var w, x, y, z := ms[0], ms[1], ms[2], ms[3];
    LegIsInLessOut(w, s);
    LegIsInLessOut(x, s);
    LegIsInLessOut(y, s);
    LegIsInLessOut(z, s);
  }

  /** The listed fees are those of the two traders. */
  lemma FeesAreDue(t: Trade, pool: AccountId, feeA: Balance, feeB: Balance, s: Slot)
    requires feeA == FeeOn(t.fromA) && feeB == FeeOn(t.fromB)
    ensures var f := Fees(t, pool, feeA, feeB);
            && |f| == 2
            && LegOf(f[0], s) == Leg(FeeAssetOfA(t), t.a.who, pool, FeeOfA(t), s)
            && LegOf(f[1], s) == Leg(FeeAssetOfB(t), t.b.who, pool, FeeOfB(t), s)
  {
  }

  lemma NetIsGain(t: Trade, pool: AccountId, s: Slot)
    requires JustFee(t.fromA, DEFAULT_FEE).Some? && JustFee(t.fromB, DEFAULT_FEE).Some?
    ensures Net(TradeMoves(t, pool), s) == TradeGain(t, pool, s)
  {
    FeeIsTwoInAThousand(t.fromA);
    FeeIsTwoInAThousand(t.fromB);
    var feeA, feeB := JustFee(t.fromA, DEFAULT_FEE).value, JustFee(t.fromB, DEFAULT_FEE).value;
    var p, f := Payments(t), Fees(t, pool, feeA, feeB);
    FeesAreDue(t, pool, feeA, feeB, s);
    assert TradeMoves(t, pool) == p + f;
    FourLegs(p + f, s);
    assert (p + f)[0] == p[0] && (p + f)[1] == p[1] && (p + f)[2] == f[0] && (p + f)[3] == f[1];
  }

  /** A direct trade that can be reserved moves exactly these amounts, and leaves every
      reserve and everything frozen as it was. */
  lemma TradeGains(b: Book, t: Trade, pair: AccountId, s: Slot)
    requires Reservable(b, t, pair)
    ensures var c := SettleDirectly(b, t, pair).book;
            && At(c, s).free == At(b, s).free + TradeGain(t, pair, s)
            && At(c, s).reserved == At(b, s).reserved && At(c, s).frozen == At(b, s).frozen
  {
    NetIsGain(t, pair, s);
    ReservableAt(b, t, pair, s);
    PreparedIsReservable(b, t, pair);
    DirectConserves(b, t, pair);
  }

  /** Two traders and the pool, all different, of opposite pairs of different assets. */
  predicate Apart(a: Intention, b: Intention, pool: AccountId) {
    && a.who != b.who && a.who != pool && b.who != pool
    && a.assets.assetIn != a.assets.assetOut
    && b.assets.assetIn == a.assets.assetOut && b.assets.assetOut == a.assets.assetIn
  }

  function If(c: bool, n: nat): nat { if c then n else 0 }

  /** Each side gives what it is to give and gets what the other gives, the fees go to
      the pool. */
  lemma TradePays(b: Book, t: Trade, pair: AccountId)
    requires Reservable(b, t, pair) && Apart(t.a, t.b, pair)
    ensures var c := SettleDirectly(b, t, pair).book;
            var x, y := t.a.assets.assetIn, t.a.assets.assetOut;
            var sellA, sellB := t.a.kind == SELL, t.b.kind == SELL;
            && FreeOf(c, x, t.a.who) == FreeOf(b, x, t.a.who) - t.fromA - If(!sellA, FeeOfA(t))
            && FreeOf(c, y, t.a.who) == FreeOf(b, y, t.a.who) + t.fromB - If(sellA, FeeOfA(t))
            && FreeOf(c, x, t.b.who) == FreeOf(b, x, t.b.who) + t.fromA - If(sellB, FeeOfB(t))
            && FreeOf(c, y, t.b.who) == FreeOf(b, y, t.b.who) - t.fromB - If(!sellB, FeeOfB(t))
            && FreeOf(c, x, pair) == FreeOf(b, x, pair) + If(!sellA, FeeOfA(t)) + If(sellB, FeeOfB(t))
            && FreeOf(c, y, pair) == FreeOf(b, y, pair) + If(sellA, FeeOfA(t)) + If(!sellB, FeeOfB(t))
  {
    var x, y := t.a.assets.assetIn, t.a.assets.assetOut;
    TradeGains(b, t, pair, (x, t.a.who));
    TradeGains(b, t, pair, (y, t.a.who));
    TradeGains(b, t, pair, (x, t.b.who));
    TradeGains(b, t, pair, (y, t.b.who));
    TradeGains(b, t, pair, (x, pair));
    TradeGains(b, t, pair, (y, pair));
  }

  // ----- one matched intention -----

  /** The pool that trades the rest is none of the traders either. */
  predicate AllApart(p: Pools, main: Intention, m: Intention, pair: AccountId) {
    Apart(main, m, pair) && Apart(main, m, p.account(m.assets))
  }

  /** A settled step could be reserved, so its fees were computed. */
  lemma SettledHasFees(p: Pools, b: Book, main: Intention, original: Intention, m: Intention, pair: AccountId)
    requires MatchOne(p, b, main, original, m, pair).step.Settled?
    ensures var s := MatchOne(p, b, main, original, m, pair).step;
            JustFee(s.fromA, DEFAULT_FEE).Some? && JustFee(s.fromB, DEFAULT_FEE).Some?
  {
    if main.amountIn > m.amountOut {
      SmallerSettles(p, b, main, original, m, pair);
    } else if main.amountIn < m.amountOut {
      LargerSettles(p, b, main, original, m, pair);
    } else {
      EqualSettles(p, b, main, original, m, pair);
    }
  }

  lemma StepGain(p: Pools, main: Intention, m: Intention, st: MatchStep, pair: AccountId, s: Slot)
    requires st.Settled? && JustFee(st.fromA, DEFAULT_FEE).Some? && JustFee(st.fromB, DEFAULT_FEE).Some?
    ensures StepNet(p, main, m, st, pair, s) ==
            TradeGain(Trade(main, m, st.fromA, st.fromB), pair, s) + PoolNetOf(p, m.kind, st.amm, s)
  {
    NetIsGain(Trade(main, m, st.fromA, st.fromB), pair, s);
  }

  /** What a pool trade for `m` brings to one of its own slots, or to nobody's. */
  lemma PoolLegs(p: Pools, m: Intention, t: AMMTransfer, s: Slot)
    requires t.origin == m.who && t.assets == m.assets && s.1 != p.account(m.assets)
    ensures s.1 != m.who ==> PoolNet(p, m.kind, t, s) == 0
    ensures s.1 == m.who && m.assets.assetIn != m.assets.assetOut ==>
              PoolNet(p, m.kind, t, s) ==
              If(s.0 == m.assets.assetOut, TakenOut(m.kind, t)) - If(s.0 == m.assets.assetIn, PaidIn(m.kind, t)) - Burned(p, t, s.0)
  {
  }

  /** The pool trade of a settled step is for the matched intention. */
  lemma PoolTradeIsMatched(p: Pools, b: Book, main: Intention, original: Intention, m: Intention, pair: AccountId)
    ensures var s := MatchOne(p, b, main, original, m, pair).step;
            s.Settled? && s.amm.Some? ==> s.amm.value.origin == m.who && s.amm.value.assets == m.assets
  {
    if main.amountIn < m.amountOut && main.amountOut <= m.amountIn {
      var limit := SatSub(m.tradeLimit, main.amountIn);
      ValidatedIsExact(p, b, m.who, m.assets, m.amountIn - main.amountOut, limit, m.discount);
      ValidatedIsExact(p, b, m.who, m.assets, m.amountOut - main.amountIn, limit, m.discount);
    }
  }

  /** What a settled step brings to a slot, of the matched or the main trader. */
  lemma StepBrings(p: Pools, b: Book, main: Intention, original: Intention, m: Intention, pair: AccountId, s: Slot)
    requires AllApart(p, main, m, pair) && MatchOne(p, b, main, original, m, pair).step.Settled?
    requires s.1 == m.who || s.1 == main.who
    ensures var r := MatchOne(p, b, main, original, m, pair);
            var pool := if s.1 == m.who && r.step.amm.Some? then PoolNet(p, m.kind, r.step.amm.value, s) else 0;
            Held(r.book, s) == Held(b, s) + TradeGain(Trade(main, m, r.step.fromA, r.step.fromB), pair, s) + pool
  {
    var r := MatchOne(p, b, main, original, m, pair);
    MatchOneAt(p, b, main, original, m, pair, s);
    SettledHasFees(p, b, main, original, m, pair);
    StepGain(p, main, m, r.step, pair, s);
    PoolTradeIsMatched(p, b, main, original, m, pair);
    if r.step.amm.Some? && s.1 == main.who { PoolLegs(p, m, r.step.amm.value, s); }
  }

  /** On the ledger, a settled matched sale spends exactly its amount, directly and
      through the pool together, besides what a discount burns. */
  lemma MatchedSaleSpends(p: Pools, b: Book, main: Intention, original: Intention, m: Intention, pair: AccountId)
    requires AllApart(p, main, m, pair) && MatchOne(p, b, main, original, m, pair).step.Settled? && m.kind == SELL
    ensures var r := MatchOne(p, b, main, original, m, pair);
            var s := (m.assets.assetIn, m.who);
            Held(r.book, s) + m.amountIn + StepBurned(p, r.step, s.0) == Held(b, s)
  {
    var r := MatchOne(p, b, main, original, m, pair);
    var s := (m.assets.assetIn, m.who);
    StepBrings(p, b, main, original, m, pair, s);
    MatchOneExact(p, b, main, original, m, pair);
    PoolTradeIsMatched(p, b, main, original, m, pair);
    if r.step.amm.Some? { PoolLegs(p, m, r.step.amm.value, s); }
  }

  /** A settled matched purchase receives exactly its amount. */
  lemma MatchedPurchaseReceives(p: Pools, b: Book, main: Intention, original: Intention, m: Intention, pair: AccountId)
    requires AllApart(p, main, m, pair) && MatchOne(p, b, main, original, m, pair).step.Settled? && m.kind == BUY
    ensures var r := MatchOne(p, b, main, original, m, pair);
            var s := (m.assets.assetOut, m.who);
            Held(r.book, s) + StepBurned(p, r.step, s.0) == Held(b, s) + m.amountOut
  {
    var r := MatchOne(p, b, main, original, m, pair);
    var s := (m.assets.assetOut, m.who);
    StepBrings(p, b, main, original, m, pair, s);
    MatchOneExact(p, b, main, original, m, pair);
    PoolTradeIsMatched(p, b, main, original, m, pair);
    if r.step.amm.Some? { PoolLegs(p, m, r.step.amm.value, s); }
  }

  /** The main trader gives what it is charged and gets what the step says, up to its fee. */
  lemma MainGivesAndGets(p: Pools, b: Book, main: Intention, original: Intention, m: Intention, pair: AccountId)
    requires AllApart(p, main, m, pair) && MatchOne(p, b, main, original, m, pair).step.Settled?
    ensures var r := MatchOne(p, b, main, original, m, pair);
            var fee := FeeOfA(Trade(main, m, r.step.fromA, r.step.fromB));
            var x, y := (main.assets.assetIn, main.who), (main.assets.assetOut, main.who);
            && Held(r.book, x) + r.step.fromA + If(main.kind == BUY, fee) == Held(b, x)
            && Held(r.book, y) + If(main.kind == SELL, fee) == Held(b, y) + r.step.fromB
  {
    StepBrings(p, b, main, original, m, pair, (main.assets.assetIn, main.who));
    StepBrings(p, b, main, original, m, pair, (main.assets.assetOut, main.who));
  }

  // ----- a whole group -----

  ghost predicate AllMatchedApart(p: Pools, main: Intention, ms: seq<Intention>, pair: AccountId) {
    forall i :: 0 <= i < |ms| ==> AllApart(p, main, ms[i], pair)
  }

  /** Over a whole group a main sale spends exactly what it is charged, and a main
      purchase receives exactly what the steps say: both pay their fees in the other asset. */
  lemma {:induction false} MainOverGroup(p: Pools, b: Book, main: Intention, ms: seq<Intention>, pair: AccountId)
    requires AllMatchedApart(p, main, ms, pair)
    ensures var r := MatchAll(p, b, main, ms, pair);
            var x, y := (main.assets.assetIn, main.who), (main.assets.assetOut, main.who);
            && (main.kind == SELL ==> Held(r.book, x) + GivenByMain(r.steps) == Held(b, x))
            && (main.kind == BUY ==> Held(r.book, y) == Held(b, y) + GotByMain(r.steps))
  {
    if ms == [] {
    } else {
      var n := |ms| - 1;
      var r := MatchAll(p, b, main, ms[..n], pair);
      var o := MatchOne(p, r.book, r.next, main, ms[n], pair);
      MainOverGroup(p, b, main, ms[..n], pair);
      MainIsExact(p, b, main, ms[..n], pair);
      OneMoreStep(p, r.steps, o.step);
      if o.step.Settled? {
        MainGivesAndGets(p, r.book, r.next, main, ms[n], pair);
      } else {
        MatchOneAt(p, r.book, r.next, main, ms[n], pair, (main.assets.assetIn, main.who));
        MatchOneAt(p, r.book, r.next, main, ms[n], pair, (main.assets.assetOut, main.who));
      }
    }
  }

  /** A main sale whose rest is traded through the pool has given exactly its amount, on
      the ledger, besides what its discount burns. */
  lemma MainSaleSpends(p: Pools, b: Book, main: Intention, ms: seq<Intention>, pair: AccountId)
    requires AllMatchedApart(p, main, ms, pair) && main.who != p.account(main.assets) && main.assets.assetIn != main.assets.assetOut
    requires main.kind == SELL && ResolveMatched(p, b, main, ms, pair).residual.Some?
    ensures var r := ResolveMatched(p, b, main, ms, pair);
            var x := (main.assets.assetIn, main.who);
            Held(r.book, x) + main.amountIn + PoolBurned(p, r.residual, x.0) == Held(b, x)
  {
    var r := MatchAll(p, b, main, ms, pair);
    var x := (main.assets.assetIn, main.who);
    MainOverGroup(p, b, main, ms, pair);
    MainIsExact(p, b, main, ms, pair);
    SingleAt(p, r.book, r.next, x);
    ValidatedIsExact(p, r.book, r.next.who, r.next.assets, r.next.amountIn, r.next.tradeLimit, r.next.discount);
    PoolLegs(p, r.next, Validate(p, r.book, r.next).value, x);
  }
}
