/** The exchange pallet as it runs: intentions are registered during a block and
    resolved when it is finalized. */
module ExchangePallet {
  import opened Numbers
  import opened Assets
  import opened Pool
  import opened DirectTrade
  import opened Matching
  import opened Resolution
  import opened Blocks
  import opened Statements
  import opened Execution
  import opened Finalization

  // ----- the stack of waiting intentions -----

  function Reversed(s: seq<Intention>): seq<Intention> {
    if s == [] then [] else Reversed(s[1..]) + [s[0]]
  }

  /** The first waiting intention is on top. */
  lemma ReversedLast(s: seq<Intention>)
    requires Reversed(s) != []
    ensures s != [] && Reversed(s)[|Reversed(s)| - 1] == s[0] && Reversed(s)[..|Reversed(s)| - 1] == Reversed(s[1..])
  {
  }

  /** Moving the first waiting intention into the group. */
  lemma MoveFirst(group: seq<Intention>, rest: seq<Intention>, total: Balance, target: Balance)
    requires rest != []
    ensures group + rest == group + [rest[0]] + rest[1..]
    ensures var t := WrapAdd(total, rest[0].amountIn);
            GroupLength(rest, total, target) == if t >= target then 1 else 1 + GroupLength(rest[1..], t, target)
  {
  }

  /** Pop intentions until their running total reaches the target. */
  method PopGroup(stack: seq<Intention>, target: Balance, ghost waiting: seq<Intention>)
    returns (group: seq<Intention>, left: seq<Intention>)
    requires stack == Reversed(waiting)
    ensures group == Group(waiting, target)
    ensures left == Reversed(waiting[|group|..])
  {
    var total: Balance := 0;
    group, left := [], stack;
    ghost var rest := waiting;
    while left != []
      invariant waiting == group + rest && left == Reversed(rest)
      invariant GroupLength(waiting, 0, target) == |group| + GroupLength(rest, total, target)
      decreases |left|
    {
      ReversedLast(rest);
      MoveFirst(group, rest, total, target);
      var matched := left[|left| - 1];
      left := left[..|left| - 1];
      group := group + [matched];
      total := WrapAdd(total, matched.amountIn);
      rest := rest[1..];
      if total >= target { break; }
    }
    assert group == waiting[..|group|] && rest == waiting[|group|..];
  }

  // ----- the pallet -----

  class Pallet {
    const currency: Currency
    const pool: Pools
    var counts: map<Key, nat>
    var intentions: map<Key, seq<Intention>>

    constructor (currency: Currency, pool: Pools)
      ensures this.currency == currency && this.pool == pool
      ensures counts == map[] && intentions == map[] && Valid()
    {
      this.currency, this.pool := currency, pool;
      counts, intentions := map[], map[];
    }

    ghost predicate Valid()
      reads this
    {
      Consistent(counts, intentions)
    }

    // ----- registration -----

    /** Counted under the ordered pair, and appended under its own. */
    method RegisterIntention(i: Intention)
      requires Valid()
      modifies this
      ensures Valid()
      ensures var k := (i.assets.assetIn, i.assets.assetOut);
              intentions == old(intentions)[k := Waiting(old(intentions), k) + [i]]
      ensures counts == CountedOnce(old(counts), i)
    {
      ghost var c, ts := CountedOnce(counts, i), Appended(intentions, i);
      assert Consistent(c, ts) by { RegisterKeepsConsistent(counts, intentions, i); }
      var key := i.assets.Ordered();
      var count := CountOf(counts, key);
      var k := KeyOf(i);
      intentions := intentions[k := Waiting(intentions, k) + [i]];
      counts := counts[key := (count + 1) % U32_SIZE];
      assert counts == c;
      assert intentions == ts;
    }

    // ----- settling -----

    method SettleTrade(t: Trade, pair: AccountId) returns (ok: bool)
      modifies currency
      ensures Settlement(ok, currency.book) == SettleDirectly(old(currency.book), t, pair)
    {
      var dt := new DirectTradeData(t, currency);
      ok := dt.PrepareTrade(pair);
      if ok { dt.Execute(); } else { dt.Revert(); }
    }

    method ExecuteAmmTransfer(kind: IntentionType, t: AMMTransfer) returns (ok: bool)
      modifies currency
      ensures var r := ExecuteAmm(pool, old(currency.book), kind, t);
              ok == r.Some? && currency.book == if ok then r.value else old(currency.book)
    {
      var r := if kind == SELL then ExecuteSell(pool, currency.book, t) else ExecuteBuy(pool, currency.book, t);
      if r == None { return false; }
      currency.book := r.value;
      return true;
    }

    method SettleTradeAndRest(t: Trade, pair: AccountId, kind: IntentionType, amm: AMMTransfer) returns (ok: bool)
      modifies currency
      ensures Settlement(ok, currency.book) == SettleWithPool(pool, old(currency.book), t, pair, kind, amm)
    {
      var dt := new DirectTradeData(t, currency);
      ok := dt.PrepareTrade(pair);
      if !ok {
        dt.Revert();
        return;
      }
      ok := ExecuteAmmTransfer(kind, amm);
      if ok { dt.Execute(); } else { dt.Revert(); }
    }

    // ----- one matched intention -----

    method ResolveSmaller(main: Intention, m: Intention, pair: AccountId) returns (step: MatchStep, next: Intention)
      requires main.amountIn > m.amountOut
      modifies currency
      ensures Resolved(step, next, currency.book) == MatchSmaller(old(currency.book), main, m, pair)
    {
      var t := Trade(main, m, m.amountOut, m.amountIn);
      if m.kind == SELL {
        if t.fromA < m.tradeLimit { return Skipped, main; }
      } else {
        if t.fromA > m.tradeLimit { return Skipped, main; }
      }
      var ok := SettleTrade(t, pair);
      if !ok { return Skipped, main; }
      next := main.(amountIn := main.amountIn - m.amountOut);
      next := next.(amountOut := WrapSub(main.amountOut, m.amountIn));
      if main.kind == SELL {
        next := next.(tradeLimit := SatSub(main.tradeLimit, m.amountIn));
      } else {
        next := next.(tradeLimit := WrapSub(main.tradeLimit, m.amountIn));
      }
      step := Settled(t.fromA, t.fromB, None);
    }

    method ResolveLarger(main: Intention, m: Intention, pair: AccountId) returns (step: MatchStep, next: Intention)
      requires main.amountIn < m.amountOut
      modifies currency
      ensures Resolved(step, next, currency.book) == MatchLarger(pool, old(currency.book), main, m, pair)
    {
      if m.amountIn < main.amountOut { return Skipped, main; }
      var restIn := m.amountIn - main.amountOut;
      var restOut := m.amountOut - main.amountIn;
      var restLimit := SatSub(m.tradeLimit, main.amountIn);
      var t := Trade(main, m, main.amountIn, m.amountIn - restIn);
      var amm :=
        if m.kind == SELL then ValidateSell(pool, currency.book, m.who, m.assets, restIn, restLimit, m.discount)
        else ValidateBuy(pool, currency.book, m.who, m.assets, restOut, restLimit, m.discount);
      assert t == Trade(main, m, main.amountIn, main.amountOut);
      assert amm == ValidateRest(pool, currency.book, main, m);
      if amm == None { return Skipped, main; }
      if m.kind == SELL {
        if t.fromB < WrapSub(m.tradeLimit, amm.value.amountOut) { return Skipped, main; }
      } else {
        if t.fromB > WrapSub(m.tradeLimit, amm.value.amountOut) { return Skipped, main; }
      }
      var ok := SettleTradeAndRest(t, pair, m.kind, amm.value);
      if !ok { return Skipped, main; }
      step, next := Settled(t.fromA, t.fromB, amm), main.(amountIn := 0);
    }

    method ResolveEqual(main: Intention, original: Intention, m: Intention, pair: AccountId)
      returns (step: MatchStep, next: Intention)
      requires main.amountIn == m.amountOut
      modifies currency
      ensures Resolved(step, next, currency.book) == MatchEqual(old(currency.book), main, original, m, pair)
    {
      var t := Trade(main, m, main.amountIn, m.amountIn);
      if original.kind == SELL {
        if t.fromB < original.tradeLimit { return Skipped, main; }
      } else {
        if t.fromB > original.tradeLimit { return Skipped, main; }
      }
      if m.kind == SELL {
        if t.fromA < m.tradeLimit { return Skipped, main; }
      } else {
        if t.fromA > m.tradeLimit { return Skipped, main; }
      }
      var ok := SettleTrade(t, pair);
      if !ok { return Skipped, main; }
      step, next := Settled(t.fromA, t.fromB, None), main.(amountIn := 0);
    }

    // ----- matched and single intentions -----

    method ResolveSingleIntention(i: Intention) returns (amm: Option<AMMTransfer>)
      modifies currency
      ensures Alone(amm, currency.book) == ResolveSingle(pool, old(currency.book), i)
    {
      amm := Validate(pool, currency.book, i);
      if amm == None { return; }
      var ok := ExecuteAmmTransfer(i.kind, amm.value);
      if !ok { amm := None; }
    }

    method ResolveMatchedIntentions(pair: AccountId, main: Intention, ms: seq<Intention>)
      returns (steps: seq<MatchStep>, residual: Option<AMMTransfer>)
      modifies currency
      ensures Match(steps, residual, currency.book) == ResolveMatched(pool, old(currency.book), main, ms, pair)
    {
      ghost var b := currency.book;
      var left := main;
      steps := [];
      for i := 0 to |ms|
        invariant Progress(steps, left, currency.book) == MatchAll(pool, b, main, ms[..i], pair)
      {
        assert ms[..i + 1][..i] == ms[..i];
        var step;
        if left.amountIn > ms[i].amountOut {
          step, left := ResolveSmaller(left, ms[i], pair);
        } else if left.amountIn < ms[i].amountOut {
          step, left := ResolveLarger(left, ms[i], pair);
        } else {
          step, left := ResolveEqual(left, main, ms[i], pair);
        }
        steps := steps + [step];
      }
      assert ms[..|ms|] == ms;
      residual := None;
      if left.amountIn > 0 {
        residual := ResolveSingleIntention(left);
      }
    }

    // ----- a pair of assets -----

    /** Verified if it could be traded through the pool right now. */
    method VerifyIntention(i: Intention) returns (ok: bool)
      ensures ok == Validate(pool, currency.book, i).Some?
    {
      var t := if i.kind == SELL
               then ValidateSell(pool, currency.book, i.who, i.assets, i.amountIn, i.tradeLimit, i.discount)
               else ValidateBuy(pool, currency.book, i.who, i.assets, i.amountOut, i.tradeLimit, i.discount);
      ok := t.Some?;
    }

    method ProcessExchangeIntentions(pair: AccountId, mains: seq<Intention>, others: seq<Intention>)
      returns (log: seq<Dispatch>)
      modifies currency
      ensures Block(log, [], currency.book) == Process(pool, old(currency.book), mains, others, pair)
    {
      ghost var b := currency.book;
      var sorted := SortDescending(others);
      var stack := Reversed(sorted);
      var queue := SortDescending(mains);
      log := [];
      ghost var rest := sorted;
      for i := 0 to |queue|
        invariant stack == Reversed(rest)
        invariant Block(log, rest, currency.book) == MatchMains(pool, b, queue[..i], sorted, pair)
      {
        assert queue[..i + 1][..i] == queue[..i];
        var ok := VerifyIntention(queue[i]);
        if !ok {
          log := log + [VerifyFailed(queue[i])];
        } else {
          var group;
          ghost var was := rest;
          group, stack := PopGroup(stack, queue[i].amountIn, was);
          rest := was[|group|..];
          var steps, residual := ResolveMatchedIntentions(pair, queue[i], group);
          log := log + [MainMatched(queue[i], group, steps, residual)];
        }
      }
      assert queue[..|queue|] == queue;
      while stack != []
        invariant stack == Reversed(rest)
        invariant ResolveRest(pool, Block(log, rest, currency.book)) == Process(pool, b, mains, others, pair)
        decreases |stack|
      {
        ReversedLast(rest);
        var single := stack[|stack| - 1];
        stack := stack[..|stack| - 1];
        rest := rest[1..];
        var amm := ResolveSingleIntention(single);
        log := log + [ResolvedAlone(single, amm)];
      }
    }

    // ----- the block -----

    method ProcessCountedPairs() returns (log: map<Key, seq<Dispatch>>, order: seq<Key>)
      modifies currency
      ensures Finalized(log, counts, intentions)
      ensures BlockExecuted(pool, old(currency.book), log, order)
      ensures currency.book == BlockLedger(pool, old(currency.book), log, order)
      ensures BlockAccounted(pool, old(currency.book), log, currency.book)
    {
      log, order := map[], [];
      var keys := counts.Keys;
      NothingSettledYet(pool, currency.book);
      while keys != {}
        invariant keys <= counts.Keys && counts == old(counts) && intentions == old(intentions)
        invariant log.Keys == set k | k in counts && k !in keys && counts[k] != 0
        invariant forall k :: k in log ==> Dealt(log[k], Waiting(intentions, (k.1, k.0)), Waiting(intentions, k))
        invariant BlockExecuted(pool, old(currency.book), log, order)
        invariant currency.book == BlockLedger(pool, old(currency.book), log, order)
        invariant BlockAccounted(pool, old(currency.book), log, currency.book)
        decreases |keys|
      {
        var k :| k in keys;
        keys := keys - {k};
        if counts[k] != 0 {
          ghost var b := currency.book;
          var pair := pool.account(AssetPair(k.0, k.1));
          var mains := Waiting(intentions, (k.1, k.0));
          var others := Waiting(intentions, (k.0, k.1));
          var ds := ProcessExchangeIntentions(pair, mains, others);
          ProcessIsDealt(pool, b, mains, others, pair);
          ProcessExecutes(pool, b, mains, others, pair);
          OneMorePair(pool, old(currency.book), log, order, k, Block(ds, [], currency.book));
          OneMoreAccounted(pool, old(currency.book), log, b, k, mains, others, Block(ds, [], currency.book));
          log, order := log[k := ds], order + [k];
        }
      }
    }

    /** Every pair with a non-zero count is processed, in whatever order the storage
        yields them, and both storage maps end empty. */
    method OnFinalize() returns (log: map<Key, seq<Dispatch>>, order: seq<Key>)
      requires Valid()
      modifies this, currency
      ensures Valid() && counts == map[] && intentions == map[]
      ensures Finalized(log, old(counts), old(intentions))
      ensures BlockExecuted(pool, old(currency.book), log, order)
      ensures currency.book == BlockLedger(pool, old(currency.book), log, order)
      ensures (forall i: Intention :: DispatchedTimes(log, i) == WaitingTimes(old(intentions), i)) <==> Ordinary(old(intentions))
      ensures BlockAccounted(pool, old(currency.book), log, currency.book)
      ensures forall x: AssetId ::
                x != pool.native || NoDiscounts(old(intentions)) ==> AssetTotal(currency.book, x) == AssetTotal(old(currency.book), x)
    {
      log, order := ProcessCountedPairs();
      OnceEach(log, counts, intentions);
      NothingBurned(pool, old(currency.book), log, currency.book, counts, intentions);
      EmptyIsConsistent();
      counts := map[];
      intentions := map[];
    }
  }
}
