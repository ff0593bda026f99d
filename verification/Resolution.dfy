/** Resolving intentions: a main intention against the ones matched with it, each
    traded directly as far as possible and through the pool for the rest. */
module Resolution {
  import opened Numbers
  import opened Assets
  import opened Pool
  import opened DirectTrade
  import opened Matching

  // ----- what happened to an intention -----

  /** How one matched intention fared: nothing, or a direct trade in which the main
      side gave `fromA` and the matched side `fromB`, with the rest through the pool. */
  datatype MatchStep = Skipped | Settled(fromA: Balance, fromB: Balance, amm: Option<AMMTransfer>)

  function PoolAmount(t: Option<AMMTransfer>): nat { if t.Some? then t.value.amount else 0 }

  function PoolOut(t: Option<AMMTransfer>): nat { if t.Some? then t.value.amountOut else 0 }

  function PoolBurned(p: Pools, t: Option<AMMTransfer>, x: AssetId): nat {
    if t.Some? then Burned(p, t.value, x) else 0
  }

  function StepBurned(p: Pools, s: MatchStep, x: AssetId): nat {
    if s.Settled? then PoolBurned(p, s.amm, x) else 0
  }

  /** A settled sale spends exactly its amount and grosses at least its limit; a
      settled purchase receives exactly its amount. A discount is taken only if asked for. */
  predicate StepExact(m: Intention, s: MatchStep) {
    s.Settled? ==>
      && (s.amm.Some? ==> s.amm.value.discount == m.discount)
      && match m.kind
         case SELL => s.fromB + PoolAmount(s.amm) == m.amountIn && s.fromA + PoolOut(s.amm) >= m.tradeLimit
         case BUY => s.fromA + PoolAmount(s.amm) == m.amountOut
  }

  /** What the main side gave, and got, over all steps. */
  function GivenByMain(steps: seq<MatchStep>): nat {
    if steps == [] then 0
    else GivenByMain(steps[..|steps| - 1]) + (var s := steps[|steps| - 1]; if s.Settled? then s.fromA else 0)
  }

  function GotByMain(steps: seq<MatchStep>): nat {
    if steps == [] then 0
    else GotByMain(steps[..|steps| - 1]) + (var s := steps[|steps| - 1]; if s.Settled? then s.fromB else 0)
  }

  function StepsBurned(p: Pools, steps: seq<MatchStep>, x: AssetId): nat {
    if steps == [] then 0
    else StepsBurned(p, steps[..|steps| - 1], x) + StepBurned(p, steps[|steps| - 1], x)
  }

  lemma OneMoreStep(p: Pools, steps: seq<MatchStep>, s: MatchStep)
    ensures GivenByMain(steps + [s]) == GivenByMain(steps) + (if s.Settled? then s.fromA else 0)
    ensures GotByMain(steps + [s]) == GotByMain(steps) + (if s.Settled? then s.fromB else 0)
    ensures forall x :: StepsBurned(p, steps + [s], x) == StepsBurned(p, steps, x) + StepBurned(p, s, x)
  {
    assert (steps + [s])[..|steps|] == steps;
  }

  // ----- the pool -----

  function Validate(p: Pools, b: Book, i: Intention): Option<AMMTransfer> {
    match i.kind
    case SELL => ValidateSell(p, b, i.who, i.assets, i.amountIn, i.tradeLimit, i.discount)
    case BUY => ValidateBuy(p, b, i.who, i.assets, i.amountOut, i.tradeLimit, i.discount)
  }

  function ExecuteAmm(p: Pools, b: Book, kind: IntentionType, t: AMMTransfer): Option<Book> {
    match kind
    case SELL => ExecuteSell(p, b, t)
    case BUY => ExecuteBuy(p, b, t)
  }

  /** Either kind of pool trade conserves every asset up to the burned discount, and
      touches no reserve. */
  lemma AmmConserves(p: Pools, b: Book, kind: IntentionType, t: AMMTransfer)
    requires ExecuteAmm(p, b, kind, t).Some?
    ensures forall x: AssetId :: AssetTotal(ExecuteAmm(p, b, kind, t).value, x) + Burned(p, t, x) == AssetTotal(b, x)
    ensures SameReserved(b, ExecuteAmm(p, b, kind, t).value)
  {
    var c := ExecuteAmm(p, b, kind, t).value;
    forall x: AssetId ensures AssetTotal(c, x) + Burned(p, t, x) == AssetTotal(b, x) && SameReserved(b, c) {
      if kind == SELL { SellConserves(p, b, t, x); } else { BuyConserves(p, b, t, x); }
    }
    if kind == SELL { SellConserves(p, b, t, 0); } else { BuyConserves(p, b, t, 0); }
  }

  /** Nobody's free plus reserved balance changed. */
  ghost predicate SameHeld(b: Book, c: Book) {
    forall s: Slot :: At(b, s).Total() == At(c, s).Total()
  }

  lemma HoldConserves(b: Book, p: Preparation)
    requires CanHoldAll(b, Reserved(p))
    ensures forall x: AssetId :: AssetTotal(HoldAll(b, Reserved(p)), x) == AssetTotal(b, x)
  {
    forall x: AssetId ensures AssetTotal(HoldAll(b, Reserved(p)), x) == AssetTotal(b, x) {
      MovesConserve(b, Reserved(p), x);
    }
  }

  lemma PayConserves(b: Book, ms: seq<Move>)
    ensures forall x: AssetId :: AssetTotal(PayAll(b, ms), x) == AssetTotal(b, x)
    ensures forall x: AssetId :: AssetTotal(ReleaseAll(b, ms), x) == AssetTotal(b, x)
  {
    forall x: AssetId
      ensures AssetTotal(PayAll(b, ms), x) == AssetTotal(b, x) && AssetTotal(ReleaseAll(b, ms), x) == AssetTotal(b, x)
    {
      MovesConserve(b, ms, x);
    }
  }

  // ----- settling one trade -----

  datatype Settlement = Settlement(ok: bool, book: Book)

  /** Prepare, then execute or revert. */
  function SettleDirectly(b: Book, t: Trade, pair: AccountId): Settlement {
    PrepareHolds(b, t, pair);
    var p := Prepare(b, t, pair);
    var held := HoldAll(b, Reserved(p));
    Settlement(p.ok, if p.ok then PayAll(held, p.moves) else ReleaseAll(held, p.moves))
  }

  /** Prepare, trade the rest through the pool, then execute; revert if either fails. */
  function SettleWithPool(pools: Pools, b: Book, t: Trade, pair: AccountId, kind: IntentionType, amm: AMMTransfer): Settlement {
    PrepareHolds(b, t, pair);
    var p := Prepare(b, t, pair);
    var held := HoldAll(b, Reserved(p));
    if p.ok && ExecuteAmm(pools, held, kind, amm).Some? then
      Settlement(true, PayAll(ExecuteAmm(pools, held, kind, amm).value, p.moves))
    else
      Settlement(false, ReleaseAll(held, p.moves))
  }

  /** Free balances changed by exactly the listed moves, frozen ones not at all. */
  ghost predicate Moved(b: Book, c: Book, ms: seq<Move>) {
    forall s: Slot ::
      && At(c, s).free + Outgoing(ms, s) == At(b, s).free + Incoming(ms, s)
      && At(c, s).frozen == At(b, s).frozen
  }

  /** Success moves what was listed and leaves every reserve as it was; failure
      leaves what everybody holds. Either way nothing is created or lost. */
  lemma DirectConserves(b: Book, t: Trade, pair: AccountId)
    ensures var r := SettleDirectly(b, t, pair);
            && (forall x: AssetId :: AssetTotal(r.book, x) == AssetTotal(b, x))
            && (r.ok ==> SameReserved(b, r.book) && Moved(b, r.book, Prepare(b, t, pair).moves))
            && (!r.ok ==> SameHeld(b, r.book))
  {
    var p := Prepare(b, t, pair);
    PrepareHolds(b, t, pair);
    var held := HoldAll(b, Reserved(p));
    HoldConserves(b, p);
    PayConserves(held, p.moves);
    if p.ok {
      assert Reserved(p) == p.moves;
      forall s: Slot
        ensures At(PayAll(held, p.moves), s).reserved == At(b, s).reserved
        ensures At(PayAll(held, p.moves), s).free + Outgoing(p.moves, s) == At(b, s).free + Incoming(p.moves, s)
        ensures At(PayAll(held, p.moves), s).frozen == At(b, s).frozen
      {
        ExecuteSettles(b, t, pair, held, s);
        HoldAllAt(b, p.moves, s);
      }
    } else {
      RevertRestores(b, t, pair);
    }
  }

  lemma PoolConserves(pools: Pools, b: Book, t: Trade, pair: AccountId, kind: IntentionType, amm: AMMTransfer)
    ensures var r := SettleWithPool(pools, b, t, pair, kind, amm);
            && (forall x: AssetId ::
                  AssetTotal(r.book, x) + (if r.ok then Burned(pools, amm, x) else 0) == AssetTotal(b, x))
            && (r.ok ==> SameReserved(b, r.book))
            && (!r.ok ==> SameHeld(b, r.book))
  {
    var p := Prepare(b, t, pair);
    PrepareHolds(b, t, pair);
    var held := HoldAll(b, Reserved(p));
    HoldConserves(b, p);
    if p.ok && ExecuteAmm(pools, held, kind, amm).Some? {
      assert Reserved(p) == p.moves;
      var c := ExecuteAmm(pools, held, kind, amm).value;
      AmmConserves(pools, held, kind, amm);
      PayConserves(c, p.moves);
      forall s: Slot ensures At(PayAll(c, p.moves), s).reserved == At(b, s).reserved {
        ExecuteSettles(b, t, pair, c, s);
      }
    } else {
      PayConserves(held, p.moves);
      RevertRestores(b, t, pair);
    }
  }

  // ----- one matched intention -----

  /** What became of a matched intention, what is left of the main one, and the ledger. */
  datatype Resolved = Resolved(step: MatchStep, next: Intention, book: Book)

  /** The limit check of the code: a sale wants at least, a purchase at most. */
  predicate WithinLimit(i: Intention, amount: Balance, limit: Balance) {
    if i.kind == SELL then amount >= limit else amount <= limit
  }

  /** The main intention after a matched one was traded in full. */
  function Reduced(main: Intention, m: Intention): Intention
    requires main.amountIn > m.amountOut
  {
    main.(amountIn := main.amountIn - m.amountOut,
          amountOut := WrapSub(main.amountOut, m.amountIn),
          tradeLimit := if main.kind == SELL then SatSub(main.tradeLimit, m.amountIn) else WrapSub(main.tradeLimit, m.amountIn))
  }

  /** The main intention has more left: the matched one is traded in full. */
  function MatchSmaller(b: Book, main: Intention, m: Intention, pair: AccountId): Resolved
    requires main.amountIn > m.amountOut
  {
    var r := SettleDirectly(b, Trade(main, m, m.amountOut, m.amountIn), pair);
    if !WithinLimit(m, m.amountOut, m.tradeLimit) then Resolved(Skipped, main, b)
    else if r.ok then Resolved(Settled(m.amountOut, m.amountIn, None), Reduced(main, m), r.book)
    else Resolved(Skipped, main, r.book)
  }

  /** The pool trade for the rest of a matched intention. */
  function ValidateRest(p: Pools, b: Book, main: Intention, m: Intention): Option<AMMTransfer>
    requires main.amountIn < m.amountOut && main.amountOut <= m.amountIn
  {
    var limit := SatSub(m.tradeLimit, main.amountIn);
    match m.kind
    case SELL => ValidateSell(p, b, m.who, m.assets, m.amountIn - main.amountOut, limit, m.discount)
    case BUY => ValidateBuy(p, b, m.who, m.assets, m.amountOut - main.amountIn, limit, m.discount)
  }

  /** The main intention has less left: the rest of the matched one goes through the pool. */
  function MatchLarger(p: Pools, b: Book, main: Intention, m: Intention, pair: AccountId): Resolved
    requires main.amountIn < m.amountOut
  {
    if m.amountIn < main.amountOut then Resolved(Skipped, main, b)
    else
      var amm := ValidateRest(p, b, main, m);
      if amm == None then Resolved(Skipped, main, b)
      else if !WithinLimit(m, main.amountOut, WrapSub(m.tradeLimit, amm.value.amountOut)) then Resolved(Skipped, main, b)
      else
        var r := SettleWithPool(p, b, Trade(main, m, main.amountIn, main.amountOut), pair, m.kind, amm.value);
        if r.ok then Resolved(Settled(main.amountIn, main.amountOut, amm), main.(amountIn := 0), r.book)
        else Resolved(Skipped, main, r.book)
  }

  /** Exactly as much is left as the matched one wants. The limit of the main side is
      that of the intention as registered. */
  function MatchEqual(b: Book, main: Intention, original: Intention, m: Intention, pair: AccountId): Resolved
    requires main.amountIn == m.amountOut
  {
    var r := SettleDirectly(b, Trade(main, m, main.amountIn, m.amountIn), pair);
    if !WithinLimit(original, m.amountIn, original.tradeLimit) || !WithinLimit(m, main.amountIn, m.tradeLimit) then
      Resolved(Skipped, main, b)
    else if r.ok then Resolved(Settled(main.amountIn, m.amountIn, None), main.(amountIn := 0), r.book)
    else Resolved(Skipped, main, r.book)
  }

  function MatchOne(p: Pools, b: Book, main: Intention, original: Intention, m: Intention, pair: AccountId): Resolved {
    if main.amountIn > m.amountOut then MatchSmaller(b, main, m, pair)
    else if main.amountIn < m.amountOut then MatchLarger(p, b, main, m, pair)
    else MatchEqual(b, main, original, m, pair)
  }

  /** What the main intention is after a step. */
  predicate Charged(main: Intention, r: Resolved) {
    && (if r.step.Settled? then r.step.fromA + r.next.amountIn == main.amountIn else r.next == main)
    && (main.kind == SELL && r.step.Settled? ==> r.next.tradeLimit + r.step.fromB >= main.tradeLimit)
    && r.next == main.(amountIn := r.next.amountIn, amountOut := r.next.amountOut, tradeLimit := r.next.tradeLimit)
  }

  lemma MatchLargerExact(p: Pools, b: Book, main: Intention, m: Intention, pair: AccountId)
    requires main.amountIn < m.amountOut
    ensures var r := MatchLarger(p, b, main, m, pair); StepExact(m, r.step) && Charged(main, r)
  {
    if main.amountOut <= m.amountIn {
      var limit := SatSub(m.tradeLimit, main.amountIn);
      ValidatedIsExact(p, b, m.who, m.assets, m.amountIn - main.amountOut, limit, m.discount);
      ValidatedIsExact(p, b, m.who, m.assets, m.amountOut - main.amountIn, limit, m.discount);
    }
  }

  /** A settled matched intention gets exactly what it is due, the main one gives
      exactly what it is charged for, and its remaining limit accounts for what it got. */
  lemma MatchOneExact(p: Pools, b: Book, main: Intention, original: Intention, m: Intention, pair: AccountId)
    ensures var r := MatchOne(p, b, main, original, m, pair); StepExact(m, r.step) && Charged(main, r)
  {
    if main.amountIn < m.amountOut { MatchLargerExact(p, b, main, m, pair); }
  }

  // ----- what the checks decide -----

  /** Whether a direct trade, with the rest through the pool, goes through, in terms
      of the balances before it. */
  lemma SettlesIff(p: Pools, b: Book, t: Trade, pair: AccountId, kind: IntentionType, amm: AMMTransfer)
    ensures SettleDirectly(b, t, pair).ok <==> Reservable(b, t, pair)
    ensures SettleWithPool(p, b, t, pair, kind, amm).ok <==>
            Reservable(b, t, pair) && ExecuteAmm(p, AllReserved(b, t, pair), kind, amm).Some?
  {
    PrepareHolds(b, t, pair);
    PreparedIsReservable(b, t, pair);
    var prepared := Prepare(b, t, pair);
    if prepared.ok {
      PreparedLedger(b, t, pair);
      assert Reserved(prepared) == prepared.moves;
    }
  }

  /** The check on the rest of a matched sale compares what the seller gives directly
      with the limit less what the pool pays, a difference that wraps. */
  predicate SaleRejected(given: Balance, out: Balance, limit: Balance) {
    if out <= limit then given + out < limit else given + out <= MAX + limit
  }

  lemma RejectedIsNotWithin(m: Intention, given: Balance, out: Balance)
    requires m.kind == SELL
    ensures WithinLimit(m, given, WrapSub(m.tradeLimit, out)) <==> !SaleRejected(given, out, m.tradeLimit)
  {
  }

  /** A sale whose rest the pool would trade always gets its limit, directly and from
      the pool together. The check turns it down all the same if and only if
      `SaleRejected`; else it settles if and only if both trades go through. */
  lemma RestOfSaleChecked(p: Pools, b: Book, main: Intention, m: Intention, pair: AccountId)
    requires m.kind == SELL && main.amountIn < m.amountOut && main.amountOut <= m.amountIn
    requires ValidateRest(p, b, main, m).Some?
    ensures var amm := ValidateRest(p, b, main, m).value;
            var t := Trade(main, m, main.amountIn, main.amountOut);
            && main.amountIn + amm.amountOut >= m.tradeLimit
            && (MatchLarger(p, b, main, m, pair).step.Settled? <==>
                && !SaleRejected(main.amountOut, amm.amountOut, m.tradeLimit)
                && Reservable(b, t, pair) && ExecuteAmm(p, AllReserved(b, t, pair), SELL, amm).Some?)
            && (SaleRejected(main.amountOut, amm.amountOut, m.tradeLimit) ==>
                MatchLarger(p, b, main, m, pair) == Resolved(Skipped, main, b))
  {
    var amm := ValidateRest(p, b, main, m).value;
    ValidatedIsExact(p, b, m.who, m.assets, m.amountIn - main.amountOut, SatSub(m.tradeLimit, main.amountIn), m.discount);
    RejectedIsNotWithin(m, main.amountOut, amm.amountOut);
    SettlesIff(p, b, Trade(main, m, main.amountIn, main.amountOut), pair, SELL, amm);
  }

  /** A used-up main intention gives nothing, and a matched one that still wants
      something pays it the old amount out if and only if all of these hold. */
  lemma ExhaustedTakes(p: Pools, b: Book, main: Intention, original: Intention, m: Intention, pair: AccountId)
    requires main.amountIn == 0 && m.amountOut > 0
    ensures var r := MatchOne(p, b, main, original, m, pair);
            var t := Trade(main, m, 0, main.amountOut);
            && (r.step.Settled? ==> r.step.fromA == 0 && r.step.fromB == main.amountOut)
            && (r.step.Settled? && r.step.fromB > 0 <==>
                && 0 < main.amountOut <= m.amountIn
                && ValidateRest(p, b, main, m).Some?
                && var amm := ValidateRest(p, b, main, m).value;
                   && WithinLimit(m, main.amountOut, WrapSub(m.tradeLimit, amm.amountOut))
                   && Reservable(b, t, pair) && ExecuteAmm(p, AllReserved(b, t, pair), m.kind, amm).Some?)
  {
    if main.amountOut <= m.amountIn {
      var amm := ValidateRest(p, b, main, m);
      if amm.Some? { SettlesIff(p, b, Trade(main, m, 0, main.amountOut), pair, m.kind, amm.value); }
    }
  }

  /** The same for a matched intention that wants nothing: it pays all its amount in. */
  lemma ExhaustedTakesAll(p: Pools, b: Book, main: Intention, original: Intention, m: Intention, pair: AccountId)
    requires main.amountIn == 0 && m.amountOut == 0
    ensures var r := MatchOne(p, b, main, original, m, pair);
            && (r.step.Settled? ==> r.step.fromA == 0 && r.step.fromB == m.amountIn)
            && (r.step.Settled? && r.step.fromB > 0 <==>
                && m.amountIn > 0
                && WithinLimit(original, m.amountIn, original.tradeLimit) && WithinLimit(m, 0, m.tradeLimit)
                && Reservable(b, Trade(main, m, 0, m.amountIn), pair))
  {
    PrepareHolds(b, Trade(main, m, 0, m.amountIn), pair);
    PreparedIsReservable(b, Trade(main, m, 0, m.amountIn), pair);
  }

  /** Settled or skipped, every asset is conserved up to the burned discount; a
      settled step leaves all reserves as they were, a skipped one leaves what
      everybody holds. */
  ghost predicate StepConserves(p: Pools, b: Book, r: Resolved) {
    && (forall x: AssetId :: AssetTotal(r.book, x) + StepBurned(p, r.step, x) == AssetTotal(b, x))
    && (r.step.Settled? ==> SameReserved(b, r.book))
    && (r.step.Skipped? ==> SameHeld(b, r.book))
  }

  lemma MatchSmallerConserves(p: Pools, b: Book, main: Intention, m: Intention, pair: AccountId)
    requires main.amountIn > m.amountOut
    ensures StepConserves(p, b, MatchSmaller(b, main, m, pair))
  {
    DirectConserves(b, Trade(main, m, m.amountOut, m.amountIn), pair);
  }

  lemma MatchLargerConserves(p: Pools, b: Book, main: Intention, m: Intention, pair: AccountId)
    requires main.amountIn < m.amountOut
    ensures StepConserves(p, b, MatchLarger(p, b, main, m, pair))
  {
    if main.amountOut <= m.amountIn {
      var amm := ValidateRest(p, b, main, m);
      if amm.Some? { PoolConserves(p, b, Trade(main, m, main.amountIn, main.amountOut), pair, m.kind, amm.value); }
    }
  }

  lemma MatchEqualConserves(p: Pools, b: Book, main: Intention, original: Intention, m: Intention, pair: AccountId)
    requires main.amountIn == m.amountOut
    ensures StepConserves(p, b, MatchEqual(b, main, original, m, pair))
  {
    DirectConserves(b, Trade(main, m, main.amountIn, m.amountIn), pair);
  }

  lemma MatchOneConserves(p: Pools, b: Book, main: Intention, original: Intention, m: Intention, pair: AccountId)
    ensures StepConserves(p, b, MatchOne(p, b, main, original, m, pair))
  {
    if main.amountIn > m.amountOut {
      MatchSmallerConserves(p, b, main, m, pair);
    } else if main.amountIn < m.amountOut {
      MatchLargerConserves(p, b, main, m, pair);
    } else {
      MatchEqualConserves(p, b, main, original, m, pair);
    }
  }

  // ----- a whole match -----

  datatype Progress = Progress(steps: seq<MatchStep>, next: Intention, book: Book)

  /** The matched intentions one after the other. */
  function MatchAll(p: Pools, b: Book, main: Intention, ms: seq<Intention>, pair: AccountId): Progress {
    if ms == [] then Progress([], main, b)
    else
      var n := |ms| - 1;
      var r := MatchAll(p, b, main, ms[..n], pair);
      var o := MatchOne(p, r.book, r.next, main, ms[n], pair);
      Progress(r.steps + [o.step], o.next, o.book)
  }

  /** A trade through the pool alone: what was traded, if anything. */
  datatype Alone = Alone(amm: Option<AMMTransfer>, book: Book)

  function ResolveSingle(p: Pools, b: Book, i: Intention): Alone {
    match Validate(p, b, i)
    case None => Alone(None, b)
    case Some(t) =>
      match ExecuteAmm(p, b, i.kind, t)
      case None => Alone(None, b)
      case Some(c) => Alone(Some(t), c)
  }

  datatype Match = Match(steps: seq<MatchStep>, residual: Option<AMMTransfer>, book: Book)

  /** What is left of the main intention goes through the pool. */
  function ResolveMatched(p: Pools, b: Book, main: Intention, ms: seq<Intention>, pair: AccountId): Match {
    var r := MatchAll(p, b, main, ms, pair);
    if r.next.amountIn > 0 then
      var a := ResolveSingle(p, r.book, r.next);
      Match(r.steps, a.amm, a.book)
    else Match(r.steps, None, r.book)
  }

  /** Every matched intention has a step, and every settled one is exact. */
  predicate StepsExact(ms: seq<Intention>, steps: seq<MatchStep>) {
    |ms| == |steps| && forall i :: 0 <= i < |ms| ==> StepExact(ms[i], steps[i])
  }

  lemma OneMoreExact(ms: seq<Intention>, steps: seq<MatchStep>, s: MatchStep)
    requires ms != [] && StepsExact(ms[..|ms| - 1], steps) && StepExact(ms[|ms| - 1], s)
    ensures StepsExact(ms, steps + [s])
  {
    var n := |ms| - 1;
    forall i | 0 <= i < |ms| ensures StepExact(ms[i], (steps + [s])[i]) {
      if i < n { assert StepExact(ms[..n][i], steps[i]); }
    }
  }

  /** Every settled step is exact. */
  lemma {:induction false} MatchedIsExact(p: Pools, b: Book, main: Intention, ms: seq<Intention>, pair: AccountId)
    ensures StepsExact(ms, MatchAll(p, b, main, ms, pair).steps)
  {
    if ms == [] {
    } else {
      var n := |ms| - 1;
      var r := MatchAll(p, b, main, ms[..n], pair);
      MatchedIsExact(p, b, main, ms[..n], pair);
      MatchOneExact(p, r.book, r.next, main, ms[n], pair);
      OneMoreExact(ms, r.steps, MatchOne(p, r.book, r.next, main, ms[n], pair).step);
    }
  }

  /** At every step the main intention's direct spending and what is left of it add
      up to its original amount. */
  lemma {:induction false} MainIsExact(p: Pools, b: Book, main: Intention, ms: seq<Intention>, pair: AccountId)
    ensures var r := MatchAll(p, b, main, ms, pair);
            && GivenByMain(r.steps) + r.next.amountIn == main.amountIn
            && (main.kind == SELL ==> r.next.tradeLimit + GotByMain(r.steps) >= main.tradeLimit)
            && r.next.kind == main.kind && r.next.who == main.who && r.next.assets == main.assets
            && r.next.discount == main.discount
  {
    if ms == [] {
    } else {
      var n := |ms| - 1;
      var r := MatchAll(p, b, main, ms[..n], pair);
      MainIsExact(p, b, main, ms[..n], pair);
      MatchOneExact(p, r.book, r.next, main, ms[n], pair);
      OneMoreStep(p, r.steps, MatchOne(p, r.book, r.next, main, ms[n], pair).step);
    }
  }

  /** A matched intention traded in full takes its amount off what the main one still
      wants, if and only if that is wanted: else the subtraction wraps. */
  lemma WantedShrinks(b: Book, main: Intention, m: Intention, pair: AccountId)
    requires main.amountIn > m.amountOut && MatchSmaller(b, main, m, pair).step.Settled?
    ensures MatchSmaller(b, main, m, pair).next.amountOut + m.amountIn == main.amountOut <==> m.amountIn <= main.amountOut
  {
  }

  /** A first match brings more than was asked for if and only if the matched
      intention offers more, is not larger than the main one, and passes all checks. */
  lemma FirstMatchOverfills(p: Pools, b: Book, main: Intention, m: Intention, pair: AccountId)
    ensures var r := MatchOne(p, b, main, main, m, pair);
            r.step.Settled? && r.step.fromB > main.amountOut <==>
            && m.amountIn > main.amountOut && m.amountOut <= main.amountIn
            && WithinLimit(m, m.amountOut, m.tradeLimit)
            && (m.amountOut == main.amountIn ==> WithinLimit(main, m.amountIn, main.tradeLimit))
            && Reservable(b, Trade(main, m, m.amountOut, m.amountIn), pair)
  {
    if m.amountOut <= main.amountIn {
      PrepareHolds(b, Trade(main, m, m.amountOut, m.amountIn), pair);
      PreparedIsReservable(b, Trade(main, m, m.amountOut, m.amountIn), pair);
    }
  }

  /** As long as something is left, what it still wants shrinks by what it got. */
  lemma StepLeavesWanted(p: Pools, b: Book, main: Intention, original: Intention, m: Intention, pair: AccountId)
    ensures var r := MatchOne(p, b, main, original, m, pair);
            r.next.amountIn > 0 ==>
              && main.amountIn > 0
              && r.next.amountOut == if r.step.Settled? then WrapSub(main.amountOut, r.step.fromB) else main.amountOut
  {
  }

  function Brought(s: MatchStep): nat { if s.Settled? then s.fromB else 0 }

  /** The state of the main intention after one more match. */
  lemma OneMoreMatch(p: Pools, b: Book, main: Intention, ms: seq<Intention>, pair: AccountId)
    requires ms != []
    ensures var before := MatchAll(p, b, main, ms[..|ms| - 1], pair);
            var o := MatchOne(p, before.book, before.next, main, ms[|ms| - 1], pair);
            var after := MatchAll(p, b, main, ms, pair);
            && after.next == o.next
            && GotByMain(after.steps) == GotByMain(before.steps) + Brought(o.step)
  {
    var before := MatchAll(p, b, main, ms[..|ms| - 1], pair);
    OneMoreStep(p, before.steps, MatchOne(p, before.book, before.next, main, ms[|ms| - 1], pair).step);
  }

  lemma BroughtWithinOffered(p: Pools, b: Book, main: Intention, original: Intention, m: Intention, pair: AccountId)
    ensures Brought(MatchOne(p, b, main, original, m, pair).step) <= m.amountIn
  {
  }

  /** The main intention gets at most what the matched ones offer. */
  lemma {:induction false} GotWithinOffered(p: Pools, b: Book, main: Intention, ms: seq<Intention>, pair: AccountId)
    ensures GotByMain(MatchAll(p, b, main, ms, pair).steps) <= SumIn(ms)
  {
    if ms == [] {
    } else {
      var n := |ms| - 1;
      var r := MatchAll(p, b, main, ms[..n], pair);
      GotWithinOffered(p, b, main, ms[..n], pair);
      BroughtWithinOffered(p, r.book, r.next, main, ms[n], pair);
      OneMoreMatch(p, b, main, ms, pair);
      SumInOneMore(ms);
    }
  }

  /** A number of rounds of the balance type. */
  function Rounds(q: nat): nat { q * (MAX + 1) }

  /** What was got and is still wanted add up to the amount out, and one round for
      every subtraction that wrapped. */
  ghost predicate AddsUp(got: nat, wanted: Balance, out: Balance) {
    exists q: nat :: got + wanted == out + Rounds(q)
  }

  lemma AddsUpOneMore(got: nat, wanted: Balance, out: Balance, brought: Balance)
    requires AddsUp(got, wanted, out)
    ensures AddsUp(got + brought, WrapSub(wanted, brought), out)
  {
    var q: nat :| got + wanted == out + Rounds(q);
    var more := if brought <= wanted then q else q + 1;
    assert got + brought + WrapSub(wanted, brought) == out + Rounds(more);
  }

  /** Without an absurd excess they add up exactly. */
  lemma AddsUpWithin(got: nat, wanted: Balance, out: Balance)
    requires AddsUp(got, wanted, out) && got + wanted <= out + MAX
    ensures got + wanted == out
  {
    var q: nat :| got + wanted == out + Rounds(q);
    assert q == 0;
  }

  /** As long as something is left. */
  ghost predicate Accounts(got: nat, left: Intention, out: Balance) { left.amountIn > 0 ==> AddsUp(got, left.amountOut, out) }

  lemma StepAccounts(p: Pools, b: Book, main: Intention, original: Intention, m: Intention, pair: AccountId, got: nat, out: Balance)
    requires Accounts(got, main, out)
    ensures var r := MatchOne(p, b, main, original, m, pair); Accounts(got + Brought(r.step), r.next, out)
  {
    var r := MatchOne(p, b, main, original, m, pair);
    StepLeavesWanted(p, b, main, original, m, pair);
    if r.next.amountIn > 0 && r.step.Settled? { AddsUpOneMore(got, main.amountOut, out, r.step.fromB); }
  }

  /** Until the main intention is used up, what it got and what it still wants add up. */
  lemma {:induction false} MainAccounts(p: Pools, b: Book, main: Intention, ms: seq<Intention>, pair: AccountId)
    ensures var r := MatchAll(p, b, main, ms, pair); Accounts(GotByMain(r.steps), r.next, main.amountOut)
  {
    if ms == [] {
      assert 0 + main.amountOut == main.amountOut + Rounds(0);
    } else {
      var n := |ms| - 1;
      var r := MatchAll(p, b, main, ms[..n], pair);
      MainAccounts(p, b, main, ms[..n], pair);
      StepAccounts(p, r.book, r.next, main, ms[n], pair, GotByMain(r.steps), main.amountOut);
      OneMoreMatch(p, b, main, ms, pair);
    }
  }

  /** They add up exactly if the matched intentions do not offer more than that; and
      in any case if and only if the main intention did not get more. */
  lemma MainStillWants(p: Pools, b: Book, main: Intention, ms: seq<Intention>, pair: AccountId)
    ensures var r := MatchAll(p, b, main, ms, pair);
            r.next.amountIn > 0 ==>
              && (SumIn(ms) <= main.amountOut ==> GotByMain(r.steps) + r.next.amountOut == main.amountOut)
              && (GotByMain(r.steps) + r.next.amountOut == main.amountOut <==> GotByMain(r.steps) <= main.amountOut)
  {
    var r := MatchAll(p, b, main, ms, pair);
    GotWithinOffered(p, b, main, ms, pair);
    MainAccounts(p, b, main, ms, pair);
    if r.next.amountIn > 0 && GotByMain(r.steps) <= main.amountOut {
      AddsUpWithin(GotByMain(r.steps), r.next.amountOut, main.amountOut);
    }
  }

  lemma StepUsesUp(p: Pools, b: Book, main: Intention, original: Intention, m: Intention, pair: AccountId)
    requires main.amountIn > 0 && MatchOne(p, b, main, original, m, pair).next.amountIn == 0
    ensures var brought := Brought(MatchOne(p, b, main, original, m, pair).step);
            && m.amountOut >= main.amountIn
            && (m.amountOut == main.amountIn && original.kind == SELL ==> brought >= original.tradeLimit)
            && (m.amountOut > main.amountIn ==> brought == main.amountOut)
  {
  }

  /** The step that uses the main intention up. If the matched one wants exactly what is
      left, a main sale has reached its limit. If it wants more, the main intention has
      got exactly its amount out, provided that what came before did not offer more: a
      sale then meets its limit if and only if that amount does. */
  lemma MainUsedUp(p: Pools, b: Book, main: Intention, ms: seq<Intention>, pair: AccountId)
    requires ms != []
    ensures var left := MatchAll(p, b, main, ms[..|ms| - 1], pair).next.amountIn;
            var r := MatchAll(p, b, main, ms, pair);
            var m := ms[|ms| - 1];
            left > 0 && r.next.amountIn == 0 ==>
              && GivenByMain(r.steps) == main.amountIn && m.amountOut >= left
              && (m.amountOut == left && main.kind == SELL ==> GotByMain(r.steps) >= main.tradeLimit)
              && (m.amountOut > left && SumIn(ms[..|ms| - 1]) <= main.amountOut ==> GotByMain(r.steps) == main.amountOut)
  {
    var n := |ms| - 1;
    var r := MatchAll(p, b, main, ms[..n], pair);
    MainIsExact(p, b, main, ms, pair);
    MainIsExact(p, b, main, ms[..n], pair);
    MainStillWants(p, b, main, ms[..n], pair);
    OneMoreMatch(p, b, main, ms, pair);
    if r.next.amountIn > 0 && MatchOne(p, r.book, r.next, main, ms[n], pair).next.amountIn == 0 {
      StepUsesUp(p, r.book, r.next, main, ms[n], pair);
    }
  }

  lemma {:induction false} MatchAllConserves(p: Pools, b: Book, main: Intention, ms: seq<Intention>, pair: AccountId, x: AssetId)
    ensures var r := MatchAll(p, b, main, ms, pair);
            AssetTotal(r.book, x) + StepsBurned(p, r.steps, x) == AssetTotal(b, x)
  {
    if ms == [] {
    } else {
      var n := |ms| - 1;
      var r := MatchAll(p, b, main, ms[..n], pair);
      MatchAllConserves(p, b, main, ms[..n], pair, x);
      MatchOneConserves(p, r.book, r.next, main, ms[n], pair);
      OneMoreStep(p, r.steps, MatchOne(p, r.book, r.next, main, ms[n], pair).step);
    }
  }

  lemma SingleExact(p: Pools, b: Book, i: Intention)
    ensures var a := ResolveSingle(p, b, i);
            && (a.amm.Some? && i.kind == SELL ==> a.amm.value.amount == i.amountIn && a.amm.value.amountOut >= i.tradeLimit)
            && (a.amm.Some? && i.kind == BUY ==> a.amm.value.amount == i.amountOut && a.amm.value.amountOut <= i.tradeLimit)
            && (if a.amm.Some? then a.amm.value.discount == i.discount else a.book == b)
            && (forall x: AssetId :: AssetTotal(a.book, x) + PoolBurned(p, a.amm, x) == AssetTotal(b, x))
            && SameReserved(b, a.book)
  {
    ValidatedIsExact(p, b, i.who, i.assets, i.amountIn, i.tradeLimit, i.discount);
    ValidatedIsExact(p, b, i.who, i.assets, i.amountOut, i.tradeLimit, i.discount);
    var t := Validate(p, b, i);
    if t.Some? && ExecuteAmm(p, b, i.kind, t.value).Some? { AmmConserves(p, b, i.kind, t.value); }
  }

  /** What the trader pays the pool in. */
  function PaidIn(kind: IntentionType, t: AMMTransfer): Balance { if kind == SELL then t.amount else t.amountOut }

  /** What the trader gets out of the pool. */
  function TakenOut(kind: IntentionType, t: AMMTransfer): Balance { if kind == SELL then t.amountOut else t.amount }

  /** An account can pay `n`, with `less` gone and `more` come in before. */
  predicate CanPay(b: Book, s: Slot, n: nat, less: nat, more: nat) {
    n == 0 || At(b, s).free + more >= n + At(b, s).frozen + less
  }

  /** Balances suffice for a pool trade: the trader's for the burned discount and what
      it pays in, together if they are in one currency, and the pool's for what it pays
      out. Between an asset and itself, what comes in first counts too. */
  predicate Executable(p: Pools, b: Book, kind: IntentionType, t: AMMTransfer) {
    var pair := p.account(t.assets);
    var burn := if t.discount then t.discountAmount else 0;
    var paid, taken := PaidIn(kind, t), TakenOut(kind, t);
    var same := t.assets.assetIn == t.assets.assetOut;
    && CanWithdraw(b, (p.native, t.origin), burn)
    && (t.origin != pair ==>
        && CanPay(b, (t.assets.assetIn, t.origin), paid,
                  if t.assets.assetIn == p.native then burn else 0, if same && kind == BUY then taken else 0)
        && CanPay(b, (t.assets.assetOut, pair), taken, 0, if same && kind == SELL then paid else 0))
  }

  lemma SaleExecutable(p: Pools, b: Book, t: AMMTransfer)
    ensures ExecuteSell(p, b, t).Some? <==> Executable(p, b, SELL, t)
  {
  }

  lemma PurchaseExecutable(p: Pools, b: Book, t: AMMTransfer)
    ensures ExecuteBuy(p, b, t).Some? <==> Executable(p, b, BUY, t)
  {
  }

  /** With nothing frozen, the trader affords both the discount and what it pays in. */
  predicate AffordsBoth(p: Pools, b: Book, i: Intention, t: AMMTransfer) {
    || !i.discount || i.assets.assetIn != p.native || i.who == p.account(i.assets)
    || FreeOf(b, p.native, i.who) >= PaidIn(i.kind, t) + t.discountAmount
  }

  ghost predicate NothingFrozen(p: Pools, b: Book, i: Intention) {
    forall s: Slot :: s.1 == i.who || s.1 == p.account(i.assets) ==> At(b, s).frozen == 0
  }

  lemma UnfrozenExecutable(p: Pools, b: Book, i: Intention, t: AMMTransfer)
    requires Validate(p, b, i) == Some(t) && i.assets.assetIn != i.assets.assetOut && NothingFrozen(p, b, i)
    ensures Executable(p, b, i.kind, t) <==> AffordsBoth(p, b, i, t)
  {
  }

  /** A verified intention would be traded at once if and only if its trade is
      executable: verification looks neither at what is frozen nor at amount and
      discount together. With nothing frozen, the latter alone decides. */
  lemma VerifiedTrades(p: Pools, b: Book, i: Intention)
    requires Validate(p, b, i).Some?
    ensures var t := Validate(p, b, i).value;
            && (ResolveSingle(p, b, i).amm == Some(t) <==> Executable(p, b, i.kind, t))
            && (i.assets.assetIn != i.assets.assetOut && NothingFrozen(p, b, i) ==>
                (ResolveSingle(p, b, i).amm == Some(t) <==> AffordsBoth(p, b, i, t)))
  {
    var t := Validate(p, b, i).value;
    SaleExecutable(p, b, t);
    PurchaseExecutable(p, b, t);
    if i.assets.assetIn != i.assets.assetOut && NothingFrozen(p, b, i) { UnfrozenExecutable(p, b, i, t); }
  }

  /** Without a pool of the native asset with itself, a discounted sale of the native
      asset is not even verified: only purchases can be verified and unaffordable. */
  lemma NativeSaleNotVerified(p: Pools, b: Book, i: Intention)
    requires i.kind == SELL && i.discount && i.assets.assetIn == p.native && !p.exists_(AssetPair(p.native, p.native))
    ensures Validate(p, b, i) == None
  {
  }

  /** A main sale whose rest is traded through the pool spends exactly its amount and
      grosses at least its registered limit over direct and pool trades together. */
  lemma MainSaleExact(p: Pools, b: Book, main: Intention, ms: seq<Intention>, pair: AccountId)
    requires main.kind == SELL && ResolveMatched(p, b, main, ms, pair).residual.Some?
    ensures var r := ResolveMatched(p, b, main, ms, pair);
            && GivenByMain(r.steps) + r.residual.value.amount == main.amountIn
            && GotByMain(r.steps) + r.residual.value.amountOut >= main.tradeLimit
  {
    MainIsExact(p, b, main, ms, pair);
    var r := MatchAll(p, b, main, ms, pair);
    SingleExact(p, r.book, r.next);
  }

  /** A rest that is traded is small: a purchase is at most a third of the pool. */
  lemma RestIsSmall(p: Pools, b: Book, main: Intention, ms: seq<Intention>, pair: AccountId)
    requires main.kind == BUY && ResolveMatched(p, b, main, ms, pair).residual.Some?
    ensures 3 * ResolveMatched(p, b, main, ms, pair).residual.value.amount <= AssetTotal(b, main.assets.assetOut)
  {
    var r := MatchAll(p, b, main, ms, pair);
    MainIsExact(p, b, main, ms, pair);
    SingleExact(p, r.book, r.next);
    MatchAllConserves(p, b, main, ms, pair, main.assets.assetOut);
    FreeWithinTotal(r.book, (main.assets.assetOut, p.account(main.assets)));
  }

  /** A main purchase whose rest is traded through the pool receives exactly its
      amount over direct and pool trades together: if the matched intentions do not
      offer more than that; if they do not offer absurdly more and the asset's total
      fits the balance type; and in any case if and only if the direct trades did not
      bring more already. */
  lemma MainPurchaseExact(p: Pools, b: Book, main: Intention, ms: seq<Intention>, pair: AccountId)
    requires main.kind == BUY && ResolveMatched(p, b, main, ms, pair).residual.Some?
    ensures var r := ResolveMatched(p, b, main, ms, pair);
            var received := GotByMain(r.steps) + r.residual.value.amount;
            && (SumIn(ms) <= main.amountOut ==> received == main.amountOut)
            && (AssetTotal(b, main.assets.assetOut) <= MAX && SumIn(ms) <= main.amountOut + MAX / 2 ==> received == main.amountOut)
            && (received == main.amountOut <==> GotByMain(r.steps) <= main.amountOut)
  {
    MainIsExact(p, b, main, ms, pair);
    MainStillWants(p, b, main, ms, pair);
    MainAccounts(p, b, main, ms, pair);
    GotWithinOffered(p, b, main, ms, pair);
    RestIsSmall(p, b, main, ms, pair);
    var r := MatchAll(p, b, main, ms, pair);
    SingleExact(p, r.book, r.next);
    if AssetTotal(b, main.assets.assetOut) <= MAX && SumIn(ms) <= main.amountOut + MAX / 2 {
      AddsUpWithin(GotByMain(r.steps), r.next.amountOut, main.amountOut);
    }
  }

  /** A main intention whose matches offer no more than it asked for never receives
      more, used up or not, with its rest traded or not. */
  lemma NeverOverfilled(p: Pools, b: Book, main: Intention, ms: seq<Intention>, pair: AccountId)
    requires main.kind == BUY && SumIn(ms) <= main.amountOut
    ensures var r := ResolveMatched(p, b, main, ms, pair);
            GotByMain(r.steps) + PoolAmount(r.residual) <= main.amountOut
  {
    GotWithinOffered(p, b, main, ms, pair);
    if ResolveMatched(p, b, main, ms, pair).residual.Some? { MainPurchaseExact(p, b, main, ms, pair); }
  }

  lemma ResidualDiscount(p: Pools, b: Book, main: Intention, ms: seq<Intention>, pair: AccountId)
    ensures var r := ResolveMatched(p, b, main, ms, pair).residual; r.Some? ==> r.value.discount == main.discount
  {
    MainIsExact(p, b, main, ms, pair);
    var r := MatchAll(p, b, main, ms, pair);
    SingleExact(p, r.book, r.next);
  }

  lemma MatchConserves(p: Pools, b: Book, main: Intention, ms: seq<Intention>, pair: AccountId, x: AssetId)
    ensures var r := ResolveMatched(p, b, main, ms, pair);
            AssetTotal(r.book, x) + StepsBurned(p, r.steps, x) + PoolBurned(p, r.residual, x) == AssetTotal(b, x)
  {
    MatchAllConserves(p, b, main, ms, pair, x);
    var r := MatchAll(p, b, main, ms, pair);
    SingleExact(p, r.book, r.next);
  }

  // ----- when a match settles -----

  lemma ExecutableIff(p: Pools, b: Book, kind: IntentionType, t: AMMTransfer)
    ensures ExecuteAmm(p, b, kind, t).Some? <==> Executable(p, b, kind, t)
  {
    SaleExecutable(p, b, t);
    PurchaseExecutable(p, b, t);
  }

  /** A smaller matched intention settles if and only if it is within its own limit and
      all four amounts can be reserved; it is then traded in full, and the main one is
      reduced by what was given and got. */
  lemma SmallerSettles(p: Pools, b: Book, main: Intention, original: Intention, m: Intention, pair: AccountId)
    requires main.amountIn > m.amountOut
    ensures var r := MatchOne(p, b, main, original, m, pair);
            && (r.step.Settled? <==>
                && (if m.kind == SELL then m.amountOut >= m.tradeLimit else m.amountOut <= m.tradeLimit)
                && Reservable(b, Trade(main, m, m.amountOut, m.amountIn), pair))
            && (r.step.Settled? ==>
                && r.step == Settled(m.amountOut, m.amountIn, None)
                && r.next.amountIn == main.amountIn - m.amountOut
                && (m.amountIn <= main.amountOut ==> r.next.amountOut == main.amountOut - m.amountIn)
                && (m.amountIn <= main.tradeLimit ==> r.next.tradeLimit == main.tradeLimit - m.amountIn)
                && (m.amountIn > main.tradeLimit && main.kind == SELL ==> r.next.tradeLimit == 0))
            && (r.step.Skipped? ==> r.next == main)
  {
    var t := Trade(main, m, m.amountOut, m.amountIn);
    PrepareHolds(b, t, pair);
    PreparedIsReservable(b, t, pair);
  }

  /** An equal one settles if and only if both are within the limits as registered and
      all four amounts can be reserved; the main one is then used up. */
  lemma EqualSettles(p: Pools, b: Book, main: Intention, original: Intention, m: Intention, pair: AccountId)
    requires main.amountIn == m.amountOut
    ensures var r := MatchOne(p, b, main, original, m, pair);
            && (r.step.Settled? <==>
                && (if original.kind == SELL then m.amountIn >= original.tradeLimit else m.amountIn <= original.tradeLimit)
                && (if m.kind == SELL then m.amountOut >= m.tradeLimit else m.amountOut <= m.tradeLimit)
                && Reservable(b, Trade(main, m, m.amountOut, m.amountIn), pair))
            && (r.step.Settled? ==> r.step == Settled(m.amountOut, m.amountIn, None) && r.next == main.(amountIn := 0))
            && (r.step.Skipped? ==> r.next == main)
  {
    var t := Trade(main, m, main.amountIn, m.amountIn);
    PrepareHolds(b, t, pair);
    PreparedIsReservable(b, t, pair);
  }

  /** The rest of a larger matched intention, sold or bought at the pool within what its
      limit leaves. */
  function RestTrade(p: Pools, b: Book, main: Intention, m: Intention): Option<AMMTransfer>
    requires main.amountIn <= m.amountOut && main.amountOut <= m.amountIn
  {
    var limit := if m.tradeLimit >= main.amountIn then m.tradeLimit - main.amountIn else 0;
    if m.kind == SELL then ValidateSell(p, b, m.who, m.assets, m.amountIn - main.amountOut, limit, m.discount)
    else ValidateBuy(p, b, m.who, m.assets, m.amountOut - main.amountIn, limit, m.discount)
  }

  /** The check on a purchase compares what the buyer gives directly with its limit less
      what the pool asks, a difference that wraps. */
  predicate PurchaseRejected(given: Balance, cost: Balance, limit: Balance) {
    if cost <= limit then given + cost > limit else given + cost > MAX + 1 + limit
  }

  /** A larger one settles if and only if it covers what the main one still wants, its
      rest can be traded, the check passes, and balances suffice for both trades. */
  lemma LargerSettles(p: Pools, b: Book, main: Intention, original: Intention, m: Intention, pair: AccountId)
    requires main.amountIn < m.amountOut
    ensures var r := MatchOne(p, b, main, original, m, pair);
            var t := Trade(main, m, main.amountIn, main.amountOut);
            && (r.step.Settled? <==>
                && main.amountOut <= m.amountIn
                && RestTrade(p, b, main, m).Some?
                && var rest := RestTrade(p, b, main, m).value;
                   && (if m.kind == SELL then !SaleRejected(main.amountOut, rest.amountOut, m.tradeLimit)
                       else !PurchaseRejected(main.amountOut, rest.amountOut, m.tradeLimit))
                   && Reservable(b, t, pair) && Executable(p, AllReserved(b, t, pair), m.kind, rest))
            && (r.step.Settled? ==>
                && r.step == Settled(main.amountIn, main.amountOut, RestTrade(p, b, main, m))
                && r.next == main.(amountIn := 0))
            && (r.step.Skipped? ==> r.next == main)
  {
    if main.amountOut <= m.amountIn {
      var t := Trade(main, m, main.amountIn, main.amountOut);
      var rest := ValidateRest(p, b, main, m);
      assert rest == RestTrade(p, b, main, m);
      if rest.Some? {
        SettlesIff(p, b, t, pair, m.kind, rest.value);
        if Reservable(b, t, pair) { ExecutableIff(p, AllReserved(b, t, pair), m.kind, rest.value); }
      }
    }
  }

  /** The rest of a main intention, matched or not, is traded if and only if something is
      left and the pool trade for it is validated and executable; else nothing more changes. */
  lemma RestTradedIff(p: Pools, b: Book, main: Intention, ms: seq<Intention>, pair: AccountId)
    ensures var r := MatchAll(p, b, main, ms, pair);
            var o := ResolveMatched(p, b, main, ms, pair);
            && o.steps == r.steps
            && (o.residual.Some? <==>
                && r.next.amountIn > 0 && Validate(p, r.book, r.next).Some?
                && Executable(p, r.book, main.kind, Validate(p, r.book, r.next).value))
            && (o.residual.None? ==> o.book == r.book)
            && (ms == [] ==> r.next == main && r.book == b)
  {
    var r := MatchAll(p, b, main, ms, pair);
    MainIsExact(p, b, main, ms, pair);
    var t := Validate(p, r.book, r.next);
    if t.Some? { ExecutableIff(p, r.book, main.kind, t.value); }
  }
}
