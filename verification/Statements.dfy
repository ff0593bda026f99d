/** Account statements: the log of a block says, account by account and asset by
    asset, what everybody holds afterwards. */
module Statements {
  import opened Numbers
  import opened FeeMath
  import opened Assets
  import opened Pool
  import opened DirectTrade
  import opened Matching
  import opened Resolution
  import opened Blocks

  // ----- what each entry of the log moves -----

  function Net(ms: seq<Move>, s: Slot): int { Incoming(ms, s) - Outgoing(ms, s) }

  function Out(m: Move, s: Slot): nat { if SlotOf(m) == s then m.amount else 0 }

  function In(m: Move, s: Slot): nat { if (m.asset, m.dest) == s then m.amount else 0 }

  /** What four moves take from and bring to one account in one asset. */
  lemma FourMoves(ms: seq<Move>, s: Slot)
    requires |ms| == 4
    ensures Outgoing(ms, s) == Out(ms[0], s) + Out(ms[1], s) + Out(ms[2], s) + Out(ms[3], s)
    ensures Incoming(ms, s) == In(ms[0], s) + In(ms[1], s) + In(ms[2], s) + In(ms[3], s)
  {
    assert ms[..4] == ms && ms[..3][..2] == ms[..2] && ms[..2][..1] == ms[..1] && ms[..1][..0] == [];
    assert Outgoing(ms[..1], s) == Out(ms[0], s) && Incoming(ms[..1], s) == In(ms[0], s);
    assert Outgoing(ms[..2], s) == Outgoing(ms[..1], s) + Out(ms[1], s);
    assert Incoming(ms[..2], s) == Incoming(ms[..1], s) + In(ms[1], s);
    assert Outgoing(ms[..3], s) == Outgoing(ms[..2], s) + Out(ms[2], s);
    assert Incoming(ms[..3], s) == Incoming(ms[..2], s) + In(ms[2], s);
  }

  /** Both payments and, to the pool, both fees. */
  function TradeMoves(t: Trade, pair: AccountId): seq<Move> {
    var feeA, feeB := JustFee(t.fromA, DEFAULT_FEE), JustFee(t.fromB, DEFAULT_FEE);
    if feeA.Some? && feeB.Some? then Payments(t) + Fees(t, pair, feeA.value, feeB.value) else Payments(t)
  }

  /** What a move of one asset does to one account. */
  function Leg(asset: AssetId, source: AccountId, dest: AccountId, n: nat, s: Slot): int {
    (if s == (asset, dest) then n else 0) - (if s == (asset, source) then n else 0)
  }

  /** What a pool trade does to one account in one asset, the burned discount included. */
  function PoolNet(p: Pools, kind: IntentionType, t: AMMTransfer, s: Slot): int {
    var pair := p.account(t.assets);
    var sold := if kind == SELL then t.amount else t.amountOut;
    var bought := if kind == SELL then t.amountOut else t.amount;
    Leg(t.assets.assetIn, t.origin, pair, sold, s) + Leg(t.assets.assetOut, pair, t.origin, bought, s)
    - (if s.1 == t.origin then Burned(p, t, s.0) else 0)
  }

  function PoolNetOf(p: Pools, kind: IntentionType, t: Option<AMMTransfer>, s: Slot): int {
    if t.Some? then PoolNet(p, kind, t.value, s) else 0
  }

  function StepNet(p: Pools, main: Intention, m: Intention, st: MatchStep, pair: AccountId, s: Slot): int {
    if st.Skipped? then 0
    else Net(TradeMoves(Trade(main, m, st.fromA, st.fromB), pair), s) + PoolNetOf(p, m.kind, st.amm, s)
  }

  function StepsNet(p: Pools, main: Intention, ms: seq<Intention>, steps: seq<MatchStep>, pair: AccountId, s: Slot): int
    requires |ms| == |steps|
  {
    if ms == [] then 0
    else
      var n := |ms| - 1;
      StepsNet(p, main, ms[..n], steps[..n], pair, s) + StepNet(p, main, ms[n], steps[n], pair, s)
  }

  function DispatchNet(p: Pools, d: Dispatch, pair: AccountId, s: Slot): int {
    match d
    case VerifyFailed(_) => 0
    case MainMatched(main, group, steps, residual) =>
      (if |group| == |steps| then StepsNet(p, main, group, steps, pair, s) else 0) + PoolNetOf(p, main.kind, residual, s)
    case ResolvedAlone(i, amm) => PoolNetOf(p, i.kind, amm, s)
  }

  function LogNet(p: Pools, log: seq<Dispatch>, pair: AccountId, s: Slot): int {
    if log == [] then 0
    else LogNet(p, log[..|log| - 1], pair, s) + DispatchNet(p, log[|log| - 1], pair, s)
  }

  lemma LogOneMore(p: Pools, log: seq<Dispatch>, d: Dispatch, pair: AccountId, s: Slot)
    ensures LogNet(p, log + [d], pair, s) == LogNet(p, log, pair, s) + DispatchNet(p, d, pair, s)
  {
    assert (log + [d])[..|log|] == log;
  }

  // ----- one trade -----

  lemma TransferAt(b: Book, asset: AssetId, source: AccountId, dest: AccountId, n: nat, s: Slot)
    requires Transfer(b, asset, source, dest, n).Some?
    ensures Held(Transfer(b, asset, source, dest, n).value, s) == Held(b, s) + Leg(asset, source, dest, n, s)
  {
    HeldIsTotal(b, s);
  }

  lemma BurnAt(p: Pools, b: Book, t: AMMTransfer, s: Slot)
    requires BurnDiscount(p, b, t).Some?
    ensures Held(BurnDiscount(p, b, t).value, s) + (if s.1 == t.origin then Burned(p, t, s.0) else 0) == Held(b, s)
  {
    HeldIsTotal(b, s);
  }

  lemma AmmAt(p: Pools, b: Book, kind: IntentionType, t: AMMTransfer, s: Slot)
    requires ExecuteAmm(p, b, kind, t).Some?
    ensures Held(ExecuteAmm(p, b, kind, t).value, s) == Held(b, s) + PoolNet(p, kind, t, s)
  {
    var pair := p.account(t.assets);
    var c := BurnDiscount(p, b, t).value;
    BurnAt(p, b, t, s);
    if kind == SELL {
      TransferAt(c, t.assets.assetIn, t.origin, pair, t.amount, s);
      var d := Transfer(c, t.assets.assetIn, t.origin, pair, t.amount).value;
      TransferAt(d, t.assets.assetOut, pair, t.origin, t.amountOut, s);
    } else {
      TransferAt(c, t.assets.assetOut, pair, t.origin, t.amount, s);
      var d := Transfer(c, t.assets.assetOut, pair, t.origin, t.amount).value;
      TransferAt(d, t.assets.assetIn, t.origin, pair, t.amountOut, s);
    }
  }

  lemma PreparedMoves(b: Book, t: Trade, pair: AccountId)
    requires Prepare(b, t, pair).ok
    ensures Prepare(b, t, pair).moves == TradeMoves(t, pair)
  {
  }

  lemma DirectAt(b: Book, t: Trade, pair: AccountId, s: Slot)
    ensures var r := SettleDirectly(b, t, pair);
            Held(r.book, s) == Held(b, s) + (if r.ok then Net(TradeMoves(t, pair), s) else 0)
  {
    var r := SettleDirectly(b, t, pair);
    DirectConserves(b, t, pair);
    HeldIsTotal(b, s);
    HeldIsTotal(r.book, s);
    if r.ok {
      PreparedMoves(b, t, pair);
      assert At(b, s).reserved == At(r.book, s).reserved;
    } else {
      assert At(b, s).Total() == At(r.book, s).Total();
    }
  }

  /** What a direct trade that can be reserved does to one free balance. */
  lemma ReservableAt(b: Book, t: Trade, pair: AccountId, s: Slot)
    requires Reservable(b, t, pair)
    ensures var r := SettleDirectly(b, t, pair);
            && r.ok && At(r.book, s).free == At(b, s).free + Net(TradeMoves(t, pair), s)
            && At(r.book, s).frozen == At(b, s).frozen
  {
    PreparedIsReservable(b, t, pair);
    PreparedMoves(b, t, pair);
    DirectConserves(b, t, pair);
  }

  lemma DirectWithPoolAt(p: Pools, b: Book, t: Trade, pair: AccountId, kind: IntentionType, amm: AMMTransfer, s: Slot)
    ensures var r := SettleWithPool(p, b, t, pair, kind, amm);
            Held(r.book, s) == Held(b, s) + (if r.ok then Net(TradeMoves(t, pair), s) + PoolNet(p, kind, amm, s) else 0)
  {
    var r := SettleWithPool(p, b, t, pair, kind, amm);
    HeldIsTotal(b, s);
    HeldIsTotal(r.book, s);
    if r.ok {
      PreparedMoves(b, t, pair);
      PrepareHolds(b, t, pair);
      var ms := Prepare(b, t, pair).moves;
      assert Reserved(Prepare(b, t, pair)) == ms;
      var held := HoldAll(b, ms);
      var c := ExecuteAmm(p, held, kind, amm).value;
      AmmConserves(p, held, kind, amm);
      AmmAt(p, held, kind, amm, s);
      HeldIsTotal(held, s);
      HeldIsTotal(c, s);
      ExecuteSettles(b, t, pair, c, s);
      HoldAllAt(b, ms, s);
      assert At(held, s).reserved == At(c, s).reserved;
    } else {
      PoolConserves(p, b, t, pair, kind, amm);
      assert At(b, s).Total() == At(r.book, s).Total();
    }
  }

  // ----- one match -----

  lemma MatchOneAt(p: Pools, b: Book, main: Intention, original: Intention, m: Intention, pair: AccountId, s: Slot)
    ensures var r := MatchOne(p, b, main, original, m, pair);
            Held(r.book, s) == Held(b, s) + StepNet(p, main, m, r.step, pair, s)
  {
    if main.amountIn > m.amountOut {
      DirectAt(b, Trade(main, m, m.amountOut, m.amountIn), pair, s);
    } else if main.amountIn < m.amountOut {
      if main.amountOut <= m.amountIn {
        var amm := ValidateRest(p, b, main, m);
        if amm.Some? { DirectWithPoolAt(p, b, Trade(main, m, main.amountIn, main.amountOut), pair, m.kind, amm.value, s); }
      }
    } else {
      DirectAt(b, Trade(main, m, main.amountIn, m.amountIn), pair, s);
    }
  }

  /** Only who trades what, and which way, matters. */
  lemma StepNetOfMain(p: Pools, x: Intention, y: Intention, m: Intention, st: MatchStep, pair: AccountId, s: Slot)
    requires x.who == y.who && x.assets == y.assets && x.kind == y.kind
    ensures StepNet(p, x, m, st, pair, s) == StepNet(p, y, m, st, pair, s)
  {
    if st.Settled? {
      assert TradeMoves(Trade(x, m, st.fromA, st.fromB), pair) == TradeMoves(Trade(y, m, st.fromA, st.fromB), pair);
    }
  }

  lemma {:induction false} MatchAllAt(p: Pools, b: Book, main: Intention, ms: seq<Intention>, pair: AccountId, s: Slot)
    ensures var r := MatchAll(p, b, main, ms, pair);
            |r.steps| == |ms| && Held(r.book, s) == Held(b, s) + StepsNet(p, main, ms, r.steps, pair, s)
  {
    MatchedIsExact(p, b, main, ms, pair);
    if ms == [] {
    } else {
      var n := |ms| - 1;
      var r := MatchAll(p, b, main, ms[..n], pair);
      var o := MatchOne(p, r.book, r.next, main, ms[n], pair);
      MatchAllAt(p, b, main, ms[..n], pair, s);
      MainIsExact(p, b, main, ms[..n], pair);
      MatchOneAt(p, r.book, r.next, main, ms[n], pair, s);
      StepNetOfMain(p, r.next, main, ms[n], o.step, pair, s);
      assert (r.steps + [o.step])[..n] == r.steps;
    }
  }

  lemma SingleAt(p: Pools, b: Book, i: Intention, s: Slot)
    ensures var a := ResolveSingle(p, b, i); Held(a.book, s) == Held(b, s) + PoolNetOf(p, i.kind, a.amm, s)
  {
    var t := Validate(p, b, i);
    if t.Some? && ExecuteAmm(p, b, i.kind, t.value).Some? { AmmAt(p, b, i.kind, t.value, s); }
  }

  lemma MatchAt(p: Pools, b: Book, main: Intention, g: seq<Intention>, pair: AccountId, s: Slot)
    ensures var o := ResolveMatched(p, b, main, g, pair);
            Held(o.book, s) == Held(b, s) + DispatchNet(p, MainMatched(main, g, o.steps, o.residual), pair, s)
  {
    MatchAllAt(p, b, main, g, pair, s);
    MainIsExact(p, b, main, g, pair);
    var r := MatchAll(p, b, main, g, pair);
    SingleAt(p, r.book, r.next, s);
  }

  // ----- a pair of assets -----

  lemma {:induction false} MatchMainsAt(
    p: Pools, b: Book, mains: seq<Intention>, others: seq<Intention>, pair: AccountId, s: Slot)
    ensures var r := MatchMains(p, b, mains, others, pair); Held(r.book, s) == Held(b, s) + LogNet(p, r.log, pair, s)
  {
    if mains == [] {
    } else {
      var n := |mains| - 1;
      var r := MatchMains(p, b, mains[..n], others, pair);
      MatchMainsAt(p, b, mains[..n], others, pair, s);
      var m := MatchMain(p, r, mains[n], pair);
      LogOneMore(p, r.log, m.log[|r.log|], pair, s);
      MatchAt(p, r.book, mains[n], Group(r.rest, mains[n].amountIn), pair, s);
    }
  }

  lemma ResolveNextAt(p: Pools, r: Block, pair: AccountId, s: Slot)
    requires r.rest != []
    ensures var n := ResolveNext(p, r);
            Held(n.book, s) - LogNet(p, n.log, pair, s) == Held(r.book, s) - LogNet(p, r.log, pair, s)
  {
    SingleAt(p, r.book, r.rest[0], s);
    LogOneMore(p, r.log, ResolvedAlone(r.rest[0], ResolveSingle(p, r.book, r.rest[0]).amm), pair, s);
  }

  lemma {:induction false} ResolveRestAt(p: Pools, r: Block, pair: AccountId, s: Slot)
    ensures var n := ResolveRest(p, r);
            Held(n.book, s) - LogNet(p, n.log, pair, s) == Held(r.book, s) - LogNet(p, r.log, pair, s)
    decreases |r.rest|
  {
    if r.rest == [] {
    } else {
      ResolveNextAt(p, r, pair, s);
      ResolveRestAt(p, ResolveNext(p, r), pair, s);
    }
  }

  /** What an account holds of an asset changes by exactly what the log says:
      nothing moves that is not in the log, and everything in it moves. */
  lemma ProcessAt(p: Pools, b: Book, mains: seq<Intention>, others: seq<Intention>, pair: AccountId, s: Slot)
    ensures var r := Process(p, b, mains, others, pair); Held(r.book, s) == Held(b, s) + LogNet(p, r.log, pair, s)
  {
    MatchMainsAt(p, b, SortDescending(mains), SortDescending(others), pair, s);
    ResolveRestAt(p, MatchMains(p, b, SortDescending(mains), SortDescending(others), pair), pair, s);
  }
}
