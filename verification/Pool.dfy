/** The constant-product pool the exchange trades against. Prices come from the
    pool's curve, which is a parameter. */
module Pool {
  import opened Numbers
  import opened FeeMath
  import opened Assets

  datatype AssetPair = AssetPair(assetIn: AssetId, assetOut: AssetId) {
    /** The pair as a storage key. */
    function Ordered(): (AssetId, AssetId) {
      if assetIn <= assetOut then (assetIn, assetOut) else (assetOut, assetIn)
    }
  }

  /** Which pools exist, their accounts, and the curve: the amount out for an
      amount in, the amount in for an amount out, and the spot price, each from
      the two reserves. */
  datatype Pools = Pools(
    exists_: AssetPair -> bool,
    account: AssetPair -> AccountId,
    outGivenIn: (nat, nat, nat) -> Option<Balance>,
    inGivenOut: (nat, nat, nat) -> Option<Balance>,
    spotPrice: (nat, nat, nat) -> Option<Balance>,
    native: AssetId,
    fee: Fee)

  /** A validated trade. Selling, `amount` is sold for `amountOut`; buying, `amount`
      is bought for `amountOut`. */
  datatype AMMTransfer = AMMTransfer(
    origin: AccountId, assets: AssetPair, amount: Balance, amountOut: Balance, discount: bool, discountAmount: Balance)

  const MAX_RATIO := 3

  function FreeOf(b: Book, asset: AssetId, who: AccountId): nat { At(b, (asset, who)).free }

  function TradeFee(p: Pools, amount: Balance, discount: bool): Option<Balance> {
    JustFee(amount, if discount then DISCOUNTED_FEE else p.fee)
  }

  /** The native amount burned in exchange for a discount on a fee in `asset`. */
  function DiscountAmount(p: Pools, b: Book, who: AccountId, asset: AssetId, fee: Balance, discount: bool): Option<Balance> {
    if !discount then Some(0)
    else
      var pair := p.account(AssetPair(asset, p.native));
      match p.spotPrice(FreeOf(b, asset, pair), FreeOf(b, p.native, pair), fee)
      case None => None
      case Some(n) => if FreeOf(b, p.native, who) >= n then Some(n) else None
  }

  function ValidateSell(p: Pools, b: Book, who: AccountId, assets: AssetPair, amount: Balance, minBought: Balance, discount: bool)
    : Option<AMMTransfer>
  {
    var pair := p.account(assets);
    var reserveIn, reserveOut := FreeOf(b, assets.assetIn, pair), FreeOf(b, assets.assetOut, pair);
    var fee := TradeFee(p, amount, discount);
    if !p.exists_(assets) || FreeOf(b, assets.assetIn, who) < amount then None
    else if discount && !p.exists_(AssetPair(assets.assetIn, p.native)) then None
    else if amount > reserveIn / MAX_RATIO || fee == None || fee.value > amount then None
    else
      match p.outGivenIn(reserveIn, reserveOut, amount - fee.value)
      case None => None
      case Some(price) =>
        if reserveOut <= price || minBought > price then None
        else
          match DiscountAmount(p, b, who, assets.assetIn, fee.value, discount)
          case None => None
          case Some(d) => Some(AMMTransfer(who, assets, amount, price, discount, d))
  }

  function ValidateBuy(p: Pools, b: Book, who: AccountId, assets: AssetPair, amount: Balance, maxLimit: Balance, discount: bool)
    : Option<AMMTransfer>
  {
    var pair := p.account(assets);
    var reserveIn, reserveOut := FreeOf(b, assets.assetIn, pair), FreeOf(b, assets.assetOut, pair);
    if !p.exists_(assets) || reserveOut <= amount || amount > reserveOut / MAX_RATIO then None
    else if discount && !p.exists_(AssetPair(assets.assetOut, p.native)) then None
    else
      match p.inGivenOut(reserveOut, reserveIn, amount)
      case None => None
      case Some(price) =>
        var fee := TradeFee(p, price, discount);
        if fee == None || price + fee.value > MAX then None
        else if maxLimit < price + fee.value || FreeOf(b, assets.assetIn, who) < price + fee.value then None
        else
          match DiscountAmount(p, b, who, assets.assetOut, fee.value, discount)
          case None => None
          case Some(d) => Some(AMMTransfer(who, assets, amount, price + fee.value, discount, d))
  }

  // ----- execution -----

  /** The discount is paid by burning native currency. */
  function BurnDiscount(p: Pools, b: Book, t: AMMTransfer): Option<Book> {
    if t.discount && t.discountAmount > 0 then Withdraw(b, (p.native, t.origin), t.discountAmount) else Some(b)
  }

  function Both(b: Option<Book>, asset: AssetId, source: AccountId, dest: AccountId, n: nat): Option<Book> {
    if b.None? then None else Transfer(b.value, asset, source, dest, n)
  }

  /** All three moves or none. */
  function ExecuteSell(p: Pools, b: Book, t: AMMTransfer): Option<Book> {
    var pair := p.account(t.assets);
    var paid := Both(BurnDiscount(p, b, t), t.assets.assetIn, t.origin, pair, t.amount);
    Both(paid, t.assets.assetOut, pair, t.origin, t.amountOut)
  }

  function ExecuteBuy(p: Pools, b: Book, t: AMMTransfer): Option<Book> {
    var pair := p.account(t.assets);
    var got := Both(BurnDiscount(p, b, t), t.assets.assetOut, pair, t.origin, t.amount);
    Both(got, t.assets.assetIn, t.origin, pair, t.amountOut)
  }

  /** What a trade takes out of existence. */
  function Burned(p: Pools, t: AMMTransfer, x: AssetId): nat {
    if x == p.native && t.discount then t.discountAmount else 0
  }

  lemma BothMoves(b: Book, asset: AssetId, source: AccountId, dest: AccountId, n: nat, x: AssetId)
    requires Transfer(b, asset, source, dest, n).Some?
    ensures AssetTotal(Transfer(b, asset, source, dest, n).value, x) == AssetTotal(b, x)
    ensures SameReserved(b, Transfer(b, asset, source, dest, n).value)
  {
    TransferConserves(b, asset, source, dest, n, x);
  }

  lemma BurnDiscountBurns(p: Pools, b: Book, t: AMMTransfer, x: AssetId)
    requires BurnDiscount(p, b, t).Some?
    ensures AssetTotal(BurnDiscount(p, b, t).value, x) + Burned(p, t, x) == AssetTotal(b, x)
    ensures SameReserved(b, BurnDiscount(p, b, t).value)
  {
    if t.discount && t.discountAmount > 0 { WithdrawBurns(b, (p.native, t.origin), t.discountAmount, x); }
  }

  /** A sale conserves every asset up to the burned discount, and touches no
      reserved balance. */
  lemma SellConserves(p: Pools, b: Book, t: AMMTransfer, x: AssetId)
    requires ExecuteSell(p, b, t).Some?
    ensures AssetTotal(ExecuteSell(p, b, t).value, x) + Burned(p, t, x) == AssetTotal(b, x)
    ensures SameReserved(b, ExecuteSell(p, b, t).value)
  {
    var pair := p.account(t.assets);
    var b1 := BurnDiscount(p, b, t).value;
    BurnDiscountBurns(p, b, t, x);
    BothMoves(b1, t.assets.assetIn, t.origin, pair, t.amount, x);
    var b2 := Transfer(b1, t.assets.assetIn, t.origin, pair, t.amount).value;
    BothMoves(b2, t.assets.assetOut, pair, t.origin, t.amountOut, x);
  }

  lemma BuyConserves(p: Pools, b: Book, t: AMMTransfer, x: AssetId)
    requires ExecuteBuy(p, b, t).Some?
    ensures AssetTotal(ExecuteBuy(p, b, t).value, x) + Burned(p, t, x) == AssetTotal(b, x)
    ensures SameReserved(b, ExecuteBuy(p, b, t).value)
  {
    var pair := p.account(t.assets);
    var b1 := BurnDiscount(p, b, t).value;
    BurnDiscountBurns(p, b, t, x);
    BothMoves(b1, t.assets.assetOut, pair, t.origin, t.amount, x);
    var b2 := Transfer(b1, t.assets.assetOut, pair, t.origin, t.amount).value;
    BothMoves(b2, t.assets.assetIn, t.origin, pair, t.amountOut, x);
  }

  /** A validated sale is for the exact amount and yields at least the minimum; a
      validated purchase is for the exact amount and costs at most the maximum. */
  lemma ValidatedIsExact(p: Pools, b: Book, who: AccountId, assets: AssetPair, amount: Balance, limit: Balance, discount: bool)
    ensures var t := ValidateSell(p, b, who, assets, amount, limit, discount);
            t.Some? ==> t.value.origin == who && t.value.assets == assets && t.value.amount == amount
                        && t.value.amountOut >= limit && t.value.discount == discount
    ensures var t := ValidateBuy(p, b, who, assets, amount, limit, discount);
            t.Some? ==> t.value.origin == who && t.value.assets == assets && t.value.amount == amount
                        && t.value.amountOut <= limit && t.value.discount == discount
  {
  }

  /** A validated trade is between assets with a pool, is at most a third of the pool's
      reserve and less than it can pay out, and is covered by the trader's free balance. */
  lemma ValidatedIsCovered(p: Pools, b: Book, who: AccountId, assets: AssetPair, amount: Balance, limit: Balance, discount: bool)
    ensures var t := ValidateSell(p, b, who, assets, amount, limit, discount);
            t.Some? ==> p.exists_(assets) && amount <= FreeOf(b, assets.assetIn, who)
                        && 3 * amount <= FreeOf(b, assets.assetIn, p.account(assets))
                        && t.value.amountOut < FreeOf(b, assets.assetOut, p.account(assets))
                        && (discount ==> t.value.discountAmount <= FreeOf(b, p.native, who))
    ensures var t := ValidateBuy(p, b, who, assets, amount, limit, discount);
            t.Some? ==> p.exists_(assets) && t.value.amountOut <= FreeOf(b, assets.assetIn, who)
                        && 3 * amount <= FreeOf(b, assets.assetOut, p.account(assets))
                        && amount < FreeOf(b, assets.assetOut, p.account(assets))
                        && (discount ==> t.value.discountAmount <= FreeOf(b, p.native, who))
  {
  }
}
