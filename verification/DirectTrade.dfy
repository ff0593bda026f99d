/** A direct trade between two intentions: reserve everything, then either pay it
    out or give it back. */
module DirectTrade {
  import opened Numbers
  import opened FeeMath
  import opened Assets
  import opened Pool

  datatype IntentionType = SELL | BUY

  datatype Intention = Intention(
    who: AccountId, assets: AssetPair, amountIn: Balance, amountOut: Balance, tradeLimit: Balance,
    discount: bool, kind: IntentionType, id: nat)

  datatype Move = Move(source: AccountId, dest: AccountId, asset: AssetId, amount: Balance)

  /** What each side gives. */
  datatype Trade = Trade(a: Intention, b: Intention, fromA: Balance, fromB: Balance)

  // ----- sequences of moves -----

  function SlotOf(m: Move): Slot { (m.asset, m.source) }

  predicate CanHoldAll(b: Book, ms: seq<Move>)
    decreases |ms|, 0
  {
    ms == [] || (var n := |ms| - 1; CanHoldAll(b, ms[..n]) && CanWithdraw(HoldAll(b, ms[..n]), SlotOf(ms[n]), ms[n].amount))
  }

  /** Reserve the amount of every move, in order. */
  function HoldAll(b: Book, ms: seq<Move>): Book
    requires CanHoldAll(b, ms)
    decreases |ms|, 1
  {
    if ms == [] then b
    else var n := |ms| - 1; Reserve(HoldAll(b, ms[..n]), SlotOf(ms[n]), ms[n].amount)
  }

  function ReleaseAll(b: Book, ms: seq<Move>): Book {
    if ms == [] then b
    else var n := |ms| - 1; Unreserve(ReleaseAll(b, ms[..n]), SlotOf(ms[n]), ms[n].amount)
  }

  function PayAll(b: Book, ms: seq<Move>): Book {
    if ms == [] then b
    else
      var m := ms[|ms| - 1];
      Repatriate(PayAll(b, ms[..|ms| - 1]), m.asset, m.source, m.dest, m.amount)
  }

  /** What the moves take from, and bring to, one account in one asset. */
  function Outgoing(ms: seq<Move>, s: Slot): nat {
    if ms == [] then 0
    else Outgoing(ms[..|ms| - 1], s) + (var m := ms[|ms| - 1]; if (m.asset, m.source) == s then m.amount else 0)
  }

  function Incoming(ms: seq<Move>, s: Slot): nat {
    if ms == [] then 0
    else Incoming(ms[..|ms| - 1], s) + (var m := ms[|ms| - 1]; if (m.asset, m.dest) == s then m.amount else 0)
  }

  /** Holding moves exactly the outgoing amounts from free to reserved. */
  lemma {:induction false} HoldAllAt(b: Book, ms: seq<Move>, s: Slot)
    requires CanHoldAll(b, ms)
    ensures At(HoldAll(b, ms), s).free + Outgoing(ms, s) == At(b, s).free
    ensures At(HoldAll(b, ms), s).reserved == At(b, s).reserved + Outgoing(ms, s)
    ensures At(HoldAll(b, ms), s).frozen == At(b, s).frozen
    ensures HoldAll(b, ms).Keys == b.Keys
  {
    if ms == [] {
    } else {
      HoldAllAt(b, ms[..|ms| - 1], s);
    }
  }

  /** Every reserve covers what the moves take from it. */
  ghost predicate Covers(b: Book, ms: seq<Move>) {
    forall s: Slot :: Outgoing(ms, s) <= At(b, s).reserved
  }

  lemma CoversPrefix(b: Book, ms: seq<Move>)
    requires Covers(b, ms) && ms != []
    ensures Covers(b, ms[..|ms| - 1])
  {
    forall s: Slot ensures Outgoing(ms[..|ms| - 1], s) <= At(b, s).reserved {
      assert Outgoing(ms, s) <= At(b, s).reserved;
    }
  }

  lemma {:induction false} ReleaseAllAt(b: Book, ms: seq<Move>, s: Slot)
    requires Covers(b, ms)
    ensures At(ReleaseAll(b, ms), s).free == At(b, s).free + Outgoing(ms, s)
    ensures At(ReleaseAll(b, ms), s).reserved + Outgoing(ms, s) == At(b, s).reserved
    ensures At(ReleaseAll(b, ms), s).frozen == At(b, s).frozen
    ensures ReleaseAll(b, ms).Keys == b.Keys
  {
    if ms == [] {
    } else {
      var m := ms[|ms| - 1];
      CoversPrefix(b, ms);
      ReleaseAllAt(b, ms[..|ms| - 1], s);
      ReleaseAllAt(b, ms[..|ms| - 1], SlotOf(m));
      assert Outgoing(ms, SlotOf(m)) <= At(b, SlotOf(m)).reserved;
    }
  }

  /** A covered payment arrives in full. */
  lemma RepatriateAt(b: Book, m: Move, s: Slot)
    requires m.amount <= At(b, SlotOf(m)).reserved
    ensures var c := Repatriate(b, m.asset, m.source, m.dest, m.amount);
            && At(c, s).free == At(b, s).free + (if (m.asset, m.dest) == s then m.amount else 0)
            && At(c, s).reserved + (if SlotOf(m) == s then m.amount else 0) == At(b, s).reserved
            && At(c, s).frozen == At(b, s).frozen
  {
  }

  /** Paying moves every amount in full, even between an account and itself. */
  lemma {:induction false} PayAllAt(b: Book, ms: seq<Move>, s: Slot)
    requires Covers(b, ms)
    ensures At(PayAll(b, ms), s).free == At(b, s).free + Incoming(ms, s)
    ensures At(PayAll(b, ms), s).reserved + Outgoing(ms, s) == At(b, s).reserved
    ensures At(PayAll(b, ms), s).frozen == At(b, s).frozen
  {
    if ms == [] {
    } else {
      var m := ms[|ms| - 1];
      CoversPrefix(b, ms);
      PayAllAt(b, ms[..|ms| - 1], s);
      PayAllAt(b, ms[..|ms| - 1], SlotOf(m));
      assert Outgoing(ms, SlotOf(m)) <= At(b, SlotOf(m)).reserved;
      RepatriateAt(PayAll(b, ms[..|ms| - 1]), m, s);
    }
  }

  lemma {:induction false} MovesConserve(b: Book, ms: seq<Move>, x: AssetId)
    ensures AssetTotal(ReleaseAll(b, ms), x) == AssetTotal(b, x) == AssetTotal(PayAll(b, ms), x)
    ensures CanHoldAll(b, ms) ==> AssetTotal(HoldAll(b, ms), x) == AssetTotal(b, x)
  {
    if ms == [] {
    } else {
      var n := |ms| - 1;
      var m := ms[n];
      MovesConserve(b, ms[..n], x);
      UnreserveConserves(ReleaseAll(b, ms[..n]), SlotOf(m), m.amount, x);
      RepatriateConserves(PayAll(b, ms[..n]), m.asset, m.source, m.dest, m.amount, x);
      if CanHoldAll(b, ms) { ReserveConserves(HoldAll(b, ms[..n]), SlotOf(m), m.amount, x); }
    }
  }

  // ----- preparation -----

  /** The two payments of a trade. */
  function Payments(t: Trade): seq<Move> {
    [Move(t.a.who, t.b.who, t.a.assets.assetIn, t.fromA), Move(t.b.who, t.a.who, t.a.assets.assetOut, t.fromB)]
  }

  /** The two fees, paid to the pool: where they are taken from depends on who
      sells and who buys. */
  function Fees(t: Trade, pool: AccountId, feeA: Balance, feeB: Balance): seq<Move> {
    match (t.a.kind, t.b.kind)
    case (SELL, SELL) => [Move(t.a.who, pool, t.a.assets.assetOut, feeB), Move(t.b.who, pool, t.b.assets.assetOut, feeA)]
    case (BUY, BUY) => [Move(t.a.who, pool, t.a.assets.assetIn, feeA), Move(t.b.who, pool, t.b.assets.assetIn, feeB)]
    case (BUY, SELL) => [Move(t.a.who, pool, t.a.assets.assetIn, feeA), Move(t.b.who, pool, t.b.assets.assetOut, feeB)]
    case (SELL, BUY) => [Move(t.a.who, pool, t.a.assets.assetOut, feeA), Move(t.b.who, pool, t.b.assets.assetIn, feeB)]
  }

  /** Whether the trade is ready, the moves it lists, and the reservations made
      that no listed move covers. */
  datatype Preparation = Preparation(ok: bool, moves: seq<Move>, stuck: seq<Move>)

  function Prepare(b: Book, t: Trade, pool: AccountId): Preparation {
    var p := Payments(t);
    var feeA, feeB := JustFee(t.fromA, DEFAULT_FEE), JustFee(t.fromB, DEFAULT_FEE);
    if FreeOf(b, t.a.assets.assetIn, t.a.who) < t.fromA || FreeOf(b, t.a.assets.assetOut, t.b.who) < t.fromB then
      Preparation(false, [], [])
    else if !CanHoldAll(b, p[..1]) then Preparation(false, [], [])
    else if !CanHoldAll(b, p) then Preparation(false, [], p[..1])
    else if feeA == None || feeB == None then Preparation(false, p, [])
    else
      var f := Fees(t, pool, feeA.value, feeB.value);
      if !CanHoldAll(b, p + f[..1]) then Preparation(false, p, [])
      else if !CanHoldAll(b, p + f) then Preparation(false, p, f[..1])
      else Preparation(true, p + f, [])
  }

  /** All that was reserved, listed or not. */
  function Reserved(p: Preparation): seq<Move> { p.moves + p.stuck }

  lemma HoldOneMore(b: Book, ms: seq<Move>, m: Move)
    ensures CanHoldAll(b, ms + [m]) <==> CanHoldAll(b, ms) && CanWithdraw(HoldAll(b, ms), SlotOf(m), m.amount)
    ensures CanHoldAll(b, ms + [m]) ==> HoldAll(b, ms + [m]) == Reserve(HoldAll(b, ms), SlotOf(m), m.amount)
  {
    assert (ms + [m])[..|ms|] == ms;
  }

  lemma PrepareHolds(b: Book, t: Trade, pool: AccountId)
    ensures CanHoldAll(b, Reserved(Prepare(b, t, pool)))
    ensures Prepare(b, t, pool).ok ==> Prepare(b, t, pool).stuck == []
    ensures |Prepare(b, t, pool).stuck| <= 1
  {
    var p := Prepare(b, t, pool);
    if p.stuck == [] { assert Reserved(p) == p.moves; }
    if p.moves == [] { assert Reserved(p) == p.stuck; }
    assert CanHoldAll(b, []);
  }

  lemma OutgoingOneMore(ms: seq<Move>, m: Move, s: Slot)
    ensures Outgoing(ms + [m], s) == Outgoing(ms, s) + (if SlotOf(m) == s then m.amount else 0)
  {
    assert (ms + [m])[..|ms|] == ms;
  }

  lemma OutgoingReserved(p: Preparation, s: Slot)
    requires |p.stuck| <= 1
    ensures Outgoing(Reserved(p), s) == Outgoing(p.moves, s) + Outgoing(p.stuck, s)
    ensures Outgoing(p.stuck, s) == if p.stuck != [] && SlotOf(p.stuck[0]) == s then p.stuck[0].amount else 0
  {
    if p.stuck == [] {
      assert Reserved(p) == p.moves;
    } else {
      assert p.stuck == [] + [p.stuck[0]];
      OutgoingOneMore([], p.stuck[0], s);
      OutgoingOneMore(p.moves, p.stuck[0], s);
    }
  }

  // ----- what prepare, execute and revert promise -----

  /** A prepared trade, with anything done meanwhile that leaves reserved balances
      alone, pays every listed move in full and brings all reserves back to where
      they were before. */
  lemma ExecuteSettles(b: Book, t: Trade, pool: AccountId, c: Book, s: Slot)
    requires Prepare(b, t, pool).ok && CanHoldAll(b, Prepare(b, t, pool).moves)
    requires SameReserved(HoldAll(b, Prepare(b, t, pool).moves), c)
    ensures var ms := Prepare(b, t, pool).moves;
            && At(PayAll(c, ms), s).reserved == At(b, s).reserved
            && At(PayAll(c, ms), s).free == At(c, s).free + Incoming(ms, s)
            && At(PayAll(c, ms), s).frozen == At(c, s).frozen
            && At(HoldAll(b, ms), s).free + Outgoing(ms, s) == At(b, s).free
  {
    var ms := Prepare(b, t, pool).moves;
    forall r: Slot ensures Outgoing(ms, r) <= At(c, r).reserved && At(c, r).reserved == At(b, r).reserved + Outgoing(ms, r) {
      HoldAllAt(b, ms, r);
      assert At(HoldAll(b, ms), r).reserved == At(c, r).reserved;
    }
    PayAllAt(c, ms, s);
    HoldAllAt(b, ms, s);
  }

  /** The ledger after a preparation is reverted. */
  function Reverted(b: Book, p: Preparation): Book
    requires CanHoldAll(b, Reserved(p))
  {
    ReleaseAll(HoldAll(b, Reserved(p)), p.moves)
  }

  /** Reverting undoes every listed reservation; one that is not listed stays. */
  lemma RevertedAt(b: Book, p: Preparation, s: Slot)
    requires CanHoldAll(b, Reserved(p)) && |p.stuck| <= 1
    ensures At(Reverted(b, p), s).free + Outgoing(p.stuck, s) == At(b, s).free
    ensures At(Reverted(b, p), s).reserved == At(b, s).reserved + Outgoing(p.stuck, s)
    ensures At(Reverted(b, p), s).frozen == At(b, s).frozen
    ensures Reverted(b, p).Keys == b.Keys
  {
    var held := HoldAll(b, Reserved(p));
    forall r: Slot ensures Outgoing(p.moves, r) <= At(held, r).reserved {
      HoldAllAt(b, Reserved(p), r);
      OutgoingReserved(p, r);
    }
    HoldAllAt(b, Reserved(p), s);
    OutgoingReserved(p, s);
    ReleaseAllAt(held, p.moves, s);
  }

  lemma RevertKeepsTotals(b: Book, p: Preparation)
    requires CanHoldAll(b, Reserved(p)) && |p.stuck| <= 1
    ensures forall s: Slot :: At(Reverted(b, p), s).Total() == At(b, s).Total()
  {
    forall s: Slot ensures At(Reverted(b, p), s).Total() == At(b, s).Total() { RevertedAt(b, p, s); }
  }

  /** With nothing left reserved every slot is as it was. */
  lemma RevertUndoes(b: Book, p: Preparation)
    requires CanHoldAll(b, Reserved(p)) && |p.stuck| <= 1
    requires p.stuck == [] || p.stuck[0].amount == 0
    ensures Reverted(b, p) == b
  {
    var c := Reverted(b, p);
    RevertedAt(b, p, (0, 0));
    forall s: Slot | s in b ensures c[s] == b[s] {
      RevertedAt(b, p, s);
      OutgoingReserved(p, s);
      assert c[s] == At(c, s) && b[s] == At(b, s);
    }
  }

  lemma RevertLeaves(b: Book, p: Preparation)
    requires CanHoldAll(b, Reserved(p)) && |p.stuck| <= 1
    requires p.stuck != [] && p.stuck[0].amount != 0
    ensures Reverted(b, p) != b
  {
    var s := SlotOf(p.stuck[0]);
    RevertedAt(b, p, s);
    OutgoingReserved(p, s);
    assert At(Reverted(b, p), s).reserved != At(b, s).reserved;
  }

  // ----- which reservation stays behind -----

  /** Both traders have what they are to give. */
  predicate Funded(b: Book, t: Trade) {
    FreeOf(b, t.a.assets.assetIn, t.a.who) >= t.fromA && FreeOf(b, t.a.assets.assetOut, t.b.who) >= t.fromB
  }

  function ReserveMove(b: Book, m: Move): Book
    requires CanWithdraw(b, SlotOf(m), m.amount)
  {
    Reserve(b, SlotOf(m), m.amount)
  }

  /** Both amounts can be reserved, one after the other. */
  predicate CanReserveBoth(b: Book, first: Move, second: Move) {
    CanWithdraw(b, SlotOf(first), first.amount) && CanWithdraw(ReserveMove(b, first), SlotOf(second), second.amount)
  }

  /** The first amount, which is not zero, can be reserved, but then not the second. */
  predicate StaysReserved(b: Book, first: Move, second: Move) {
    && first.amount != 0
    && CanWithdraw(b, SlotOf(first), first.amount)
    && !CanWithdraw(ReserveMove(b, first), SlotOf(second), second.amount)
  }

  /** The payment of the first trader is reserved for good: the other one has the
      amount, but may not withdraw it. */
  predicate PaymentStays(b: Book, t: Trade) {
    Funded(b, t) && StaysReserved(b, Payments(t)[0], Payments(t)[1])
  }

  /** Both payments can be reserved and the first fee too, but not the second. */
  predicate FeeStays(b: Book, t: Trade, pool: AccountId) {
    var p := Payments(t);
    var feeA, feeB := JustFee(t.fromA, DEFAULT_FEE), JustFee(t.fromB, DEFAULT_FEE);
    && Funded(b, t) && CanReserveBoth(b, p[0], p[1]) && feeA.Some? && feeB.Some?
    && var f := Fees(t, pool, feeA.value, feeB.value);
       StaysReserved(ReserveMove(ReserveMove(b, p[0]), p[1]), f[0], f[1])
  }

  /** Two more amounts in terms of balances. */
  lemma HoldTwoMore(b: Book, ms: seq<Move>, f: seq<Move>)
    requires CanHoldAll(b, ms) && |f| == 2
    ensures CanHoldAll(b, ms + f[..1]) <==> CanWithdraw(HoldAll(b, ms), SlotOf(f[0]), f[0].amount)
    ensures CanHoldAll(b, ms + f) <==> CanReserveBoth(HoldAll(b, ms), f[0], f[1])
    ensures CanHoldAll(b, ms + f) ==> HoldAll(b, ms + f) == ReserveMove(ReserveMove(HoldAll(b, ms), f[0]), f[1])
  {
    assert f[..1] == [f[0]];
    HoldOneMore(b, ms, f[0]);
    HoldOneMore(b, ms + [f[0]], f[1]);
    assert ms + [f[0]] + [f[1]] == ms + f;
  }

  lemma StuckIsStaying(b: Book, t: Trade, pool: AccountId)
    ensures var p := Prepare(b, t, pool);
            (p.stuck != [] && p.stuck[0].amount != 0) <==> PaymentStays(b, t) || FeeStays(b, t, pool)
  {
    var pay := Payments(t);
    assert [] + pay == pay && [] + pay[..1] == pay[..1];
    HoldTwoMore(b, [], pay);
    var feeA, feeB := JustFee(t.fromA, DEFAULT_FEE), JustFee(t.fromB, DEFAULT_FEE);
    if CanHoldAll(b, pay) && feeA.Some? && feeB.Some? {
      HoldTwoMore(b, pay, Fees(t, pool, feeA.value, feeB.value));
    }
  }

  /** Prepare then revert is the identity if and only if neither a payment nor a fee
      stays reserved; every account keeps its total in any case. */
  lemma RevertRestores(b: Book, t: Trade, pool: AccountId)
    requires CanHoldAll(b, Reserved(Prepare(b, t, pool)))
    ensures Reverted(b, Prepare(b, t, pool)) == b <==> !PaymentStays(b, t) && !FeeStays(b, t, pool)
    ensures Prepare(b, t, pool).ok ==> Reverted(b, Prepare(b, t, pool)) == b
    ensures forall s: Slot :: At(Reverted(b, Prepare(b, t, pool)), s).Total() == At(b, s).Total()
  {
    var p := Prepare(b, t, pool);
    PrepareHolds(b, t, pool);
    StuckIsStaying(b, t, pool);
    RevertKeepsTotals(b, p);
    if p.stuck == [] || p.stuck[0].amount == 0 { RevertUndoes(b, p); } else { RevertLeaves(b, p); }
  }

  // ----- when a preparation succeeds -----

  /** Both payments and then both fees can be reserved. */
  predicate Reservable(b: Book, t: Trade, pool: AccountId) {
    var p := Payments(t);
    var feeA, feeB := JustFee(t.fromA, DEFAULT_FEE), JustFee(t.fromB, DEFAULT_FEE);
    && Funded(b, t) && CanReserveBoth(b, p[0], p[1]) && feeA.Some? && feeB.Some?
    && var f := Fees(t, pool, feeA.value, feeB.value);
       CanReserveBoth(ReserveMove(ReserveMove(b, p[0]), p[1]), f[0], f[1])
  }

  /** The ledger with all four amounts reserved. */
  function AllReserved(b: Book, t: Trade, pool: AccountId): Book
    requires Reservable(b, t, pool)
  {
    var p := Payments(t);
    var f := Fees(t, pool, JustFee(t.fromA, DEFAULT_FEE).value, JustFee(t.fromB, DEFAULT_FEE).value);
    ReserveMove(ReserveMove(ReserveMove(ReserveMove(b, p[0]), p[1]), f[0]), f[1])
  }

  /** A preparation succeeds if and only if the balances allow it. */
  lemma PreparedIsReservable(b: Book, t: Trade, pool: AccountId)
    ensures Prepare(b, t, pool).ok <==> Reservable(b, t, pool)
  {
    var pay := Payments(t);
    assert [] + pay == pay && [] + pay[..1] == pay[..1];
    HoldTwoMore(b, [], pay);
    var feeA, feeB := JustFee(t.fromA, DEFAULT_FEE), JustFee(t.fromB, DEFAULT_FEE);
    if CanHoldAll(b, pay) && feeA.Some? && feeB.Some? {
      HoldTwoMore(b, pay, Fees(t, pool, feeA.value, feeB.value));
    }
  }

  lemma PreparedLedger(b: Book, t: Trade, pool: AccountId)
    requires Prepare(b, t, pool).ok && Reservable(b, t, pool)
    ensures CanHoldAll(b, Prepare(b, t, pool).moves)
    ensures HoldAll(b, Prepare(b, t, pool).moves) == AllReserved(b, t, pool)
  {
    var pay := Payments(t);
    var f := Fees(t, pool, JustFee(t.fromA, DEFAULT_FEE).value, JustFee(t.fromB, DEFAULT_FEE).value);
    assert [] + pay == pay && CanHoldAll(b, []);
    HoldTwoMore(b, [], pay);
    HoldTwoMore(b, pay, f);
  }

  // ----- the trade object -----

  /** The currency storage. */
  class Currency {
    var book: Book

    constructor (b: Book)
      ensures book == b
    {
      book := b;
    }

    method TryReserve(s: Slot, n: nat) returns (ok: bool)
      modifies this
      ensures ok == CanWithdraw(old(book), s, n)
      ensures book == if ok then Assets.Reserve(old(book), s, n) else old(book)
    {
      if n == 0 { return true; }
      var h := if s in book then book[s] else Holding(0, 0, 0);
      if h.free < n + h.frozen { return false; }
      book := book[s := h.(free := h.free - n, reserved := h.reserved + n)];
      return true;
    }

    method Unreserve(s: Slot, n: nat)
      modifies this
      ensures book == Assets.Unreserve(old(book), s, n)
    {
      if n == 0 { return; }
      var h := if s in book then book[s] else Holding(0, 0, 0);
      var actual := Min(h.reserved, n);
      book := book[s := h.(free := h.free + actual, reserved := h.reserved - actual)];
    }

    method RepatriateReserved(asset: AssetId, source: AccountId, dest: AccountId, n: nat)
      modifies this
      ensures book == Assets.Repatriate(old(book), asset, source, dest, n)
    {
      if n == 0 { return; }
      if source == dest {
        Unreserve((asset, source), n);
        return;
      }
      var src := At(book, (asset, source));
      var dst := At(book, (asset, dest));
      var actual := Min(src.reserved, n);
      book := book[(asset, source) := src.(reserved := src.reserved - actual)];
      book := book[(asset, dest) := dst.(free := dst.free + actual)];
    }
  }

  class DirectTradeData {
    const trade: Trade
    const currency: Currency
    var moves: seq<Move>

    constructor (trade: Trade, currency: Currency)
      ensures this.trade == trade && this.currency == currency && moves == []
    {
      this.trade, this.currency, this.moves := trade, currency, [];
    }

    /** Check balances, reserve both payments, then both fees. */
    method PrepareTrade(pool: AccountId) returns (ok: bool)
      requires moves == []
      modifies this, currency
      ensures var p := Prepare(old(currency.book), trade, pool);
              && ok == p.ok && moves == p.moves
              && CanHoldAll(old(currency.book), Reserved(p))
              && currency.book == HoldAll(old(currency.book), Reserved(p))
    {
      ghost var b := currency.book;
      ghost var p := Prepare(b, trade, pool);
      PrepareHolds(b, trade, pool);
      if At(currency.book, (trade.a.assets.assetIn, trade.a.who)).free < trade.fromA { return false; }
      if At(currency.book, (trade.a.assets.assetOut, trade.b.who)).free < trade.fromB { return false; }
      ghost var pay := Payments(trade);
      assert [] + pay == pay && [] + pay[..1] == pay[..1];
      ok := ReservePair(Payments(trade), b);
      if !ok { assert Reserved(p) == p.stuck; return; }
      ok := PrepareFees(pool, b);
    }

    /** The second half, once both payments are reserved. */
    method PrepareFees(pool: AccountId, ghost b: Book) returns (ok: bool)
      requires moves == Payments(trade) && CanHoldAll(b, moves) && CanHoldAll(b, moves[..1])
      requires currency.book == HoldAll(b, moves)
      requires FreeOf(b, trade.a.assets.assetIn, trade.a.who) >= trade.fromA
      requires FreeOf(b, trade.a.assets.assetOut, trade.b.who) >= trade.fromB
      modifies this, currency
      ensures var p := Prepare(b, trade, pool);
              && ok == p.ok && moves == p.moves
              && CanHoldAll(b, Reserved(p)) && currency.book == HoldAll(b, Reserved(p))
    {
      ghost var p := Prepare(b, trade, pool);
      PrepareHolds(b, trade, pool);
      var feeA := JustFee(trade.fromA, DEFAULT_FEE);
      var feeB := JustFee(trade.fromB, DEFAULT_FEE);
      if feeA == None || feeB == None { assert Reserved(p) == p.moves; return false; }
      ok := ReservePair(Fees(trade, pool, feeA.value, feeB.value), b);
      assert p.stuck == [] ==> Reserved(p) == p.moves;
    }

    /** Reserve two more amounts in order; only if both succeed are they listed. */
    method ReservePair(f: seq<Move>, ghost b: Book) returns (ok: bool)
      requires |f| == 2 && CanHoldAll(b, moves) && currency.book == HoldAll(b, moves)
      modifies this, currency
      ensures var p := old(moves);
              && ok == CanHoldAll(b, p + f)
              && (ok ==> CanHoldAll(b, p + f[..1]) && moves == p + f && currency.book == HoldAll(b, p + f))
              && (!ok ==> moves == p)
              && (!ok && CanHoldAll(b, p + f[..1]) ==> currency.book == HoldAll(b, p + f[..1]))
              && (!ok && !CanHoldAll(b, p + f[..1]) ==> currency.book == HoldAll(b, p))
    {
      ghost var p := moves;
      assert f[..1] == [f[0]];
      HoldOneMore(b, p, f[0]);
      HoldOneMore(b, p + [f[0]], f[1]);
      assert p + [f[0]] + [f[1]] == p + f;
      var held := currency.TryReserve(SlotOf(f[0]), f[0].amount);
      if !held { return false; }
      held := currency.TryReserve(SlotOf(f[1]), f[1].amount);
      if !held { return false; }
      moves := moves + [f[0]];
      moves := moves + [f[1]];
      return true;
    }

    /** Pay every listed move out of the reserves. */
    method Execute()
      modifies currency
      ensures currency.book == PayAll(old(currency.book), moves)
    {
      ghost var b := currency.book;
      for i := 0 to |moves|
        invariant currency.book == PayAll(b, moves[..i])
      {
        assert moves[..i + 1][..i] == moves[..i];
        currency.RepatriateReserved(moves[i].asset, moves[i].source, moves[i].dest, moves[i].amount);
      }
      assert moves[..|moves|] == moves;
    }

    /** Give back every listed reservation. */
    method Revert()
      modifies currency
      ensures currency.book == ReleaseAll(old(currency.book), moves)
    {
      ghost var b := currency.book;
      for i := 0 to |moves|
        invariant currency.book == ReleaseAll(b, moves[..i])
      {
        assert moves[..i + 1][..i] == moves[..i];
        currency.Unreserve(SlotOf(moves[i]), moves[i].amount);
      }
      assert moves[..|moves|] == moves;
    }
  }
}
