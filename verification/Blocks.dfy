/** Finalizing a pair of assets: which intentions are matched with which, and that
    each is dealt with exactly once. */
module Blocks {
  import opened Numbers
  import opened Assets
  import opened Pool
  import opened DirectTrade
  import opened Matching
  import opened Resolution

  /** How intentions leave the block. */
  datatype Dispatch =
    | VerifyFailed(main: Intention)
    | MainMatched(main: Intention, group: seq<Intention>, steps: seq<MatchStep>, residual: Option<AMMTransfer>)
    | ResolvedAlone(single: Intention, amm: Option<AMMTransfer>)

  function DispatchBurned(p: Pools, d: Dispatch, x: AssetId): nat {
    match d
    case VerifyFailed(_) => 0
    case MainMatched(_, _, steps, residual) => StepsBurned(p, steps, x) + PoolBurned(p, residual, x)
    case ResolvedAlone(_, amm) => PoolBurned(p, amm, x)
  }

  /** The main intentions dealt with, in order. */
  function MainsOf(ds: seq<Dispatch>): seq<Intention> {
    if ds == [] then []
    else MainsOf(ds[..|ds| - 1]) + (var d := ds[|ds| - 1]; if d.ResolvedAlone? then [] else [d.main])
  }

  /** The intentions of the other side dealt with, in order. */
  function OthersOf(ds: seq<Dispatch>): seq<Intention> {
    if ds == [] then []
    else
      OthersOf(ds[..|ds| - 1]) +
      (match ds[|ds| - 1]
       case VerifyFailed(_) => []
       case MainMatched(_, group, _, _) => group
       case ResolvedAlone(i, _) => [i])
  }

  function AllBurned(p: Pools, ds: seq<Dispatch>, x: AssetId): nat {
    if ds == [] then 0 else AllBurned(p, ds[..|ds| - 1], x) + DispatchBurned(p, ds[|ds| - 1], x)
  }

  lemma OneMoreDispatch(p: Pools, ds: seq<Dispatch>, d: Dispatch, x: AssetId)
    ensures MainsOf(ds + [d]) == MainsOf(ds) + (if d.ResolvedAlone? then [] else [d.main])
    ensures d.VerifyFailed? ==> OthersOf(ds + [d]) == OthersOf(ds)
    ensures d.MainMatched? ==> OthersOf(ds + [d]) == OthersOf(ds) + d.group
    ensures d.ResolvedAlone? ==> OthersOf(ds + [d]) == OthersOf(ds) + [d.single]
    ensures AllBurned(p, ds + [d], x) == AllBurned(p, ds, x) + DispatchBurned(p, d, x)
  {
    assert (ds + [d])[..|ds|] == ds;
  }

  datatype Block = Block(log: seq<Dispatch>, rest: seq<Intention>, book: Book)

  /** Every main intention in turn: verified against the pool, then given the
      next group of the other side. */
  function MatchMains(p: Pools, b: Book, mains: seq<Intention>, others: seq<Intention>, pair: AccountId): Block {
    if mains == [] then Block([], others, b)
    else
      var n := |mains| - 1;
      var r := MatchMains(p, b, mains[..n], others, pair);
      MatchMain(p, r, mains[n], pair)
  }

  function MatchMain(p: Pools, r: Block, main: Intention, pair: AccountId): Block {
    if Validate(p, r.book, main) == None then r.(log := r.log + [VerifyFailed(main)])
    else
      var g := Group(r.rest, main.amountIn);
      var o := ResolveMatched(p, r.book, main, g, pair);
      Block(r.log + [MainMatched(main, g, o.steps, o.residual)], r.rest[|g|..], o.book)
  }

  /** The next intention left of the other side, through the pool. */
  function ResolveNext(p: Pools, r: Block): Block
    requires r.rest != []
  {
    var a := ResolveSingle(p, r.book, r.rest[0]);
    Block(r.log + [ResolvedAlone(r.rest[0], a.amm)], r.rest[1..], a.book)
  }

  /** All that is left of the other side. */
  function ResolveRest(p: Pools, r: Block): Block
    decreases |r.rest|
  {
    if r.rest == [] then r else ResolveRest(p, ResolveNext(p, r))
  }

  /** `process_exchange_intentions`. */
  function Process(p: Pools, b: Book, mains: seq<Intention>, others: seq<Intention>, pair: AccountId): Block {
    ResolveRest(p, MatchMains(p, b, SortDescending(mains), SortDescending(others), pair))
  }

  // ----- each intention once -----

  /** Dealt with so far and still waiting make up the other side. */
  predicate Accounted(r: Block, others: seq<Intention>) { OthersOf(r.log) + r.rest == others }

  /** Every group is the greedy prefix of what was waiting at the time. */
  ghost predicate GreedyGroups(log: seq<Dispatch>, others: seq<Intention>) {
    forall i: nat :: GreedyAt(log, others, i)
  }

  predicate GreedyAt(log: seq<Dispatch>, others: seq<Intention>, i: nat) {
    i < |log| && log[i].MainMatched? ==>
      var k := |OthersOf(log[..i])|;
      k <= |others| && log[i].group == Group(others[k..], log[i].main.amountIn)
  }

  lemma GreedyOneMore(log: seq<Dispatch>, others: seq<Intention>, d: Dispatch)
    requires GreedyGroups(log, others)
    requires d.MainMatched? ==> |OthersOf(log)| <= |others| && d.group == Group(others[|OthersOf(log)|..], d.main.amountIn)
    ensures GreedyGroups(log + [d], others)
  {
    forall i: nat ensures GreedyAt(log + [d], others, i) {
      if i <= |log| { assert (log + [d])[..i] == log[..i]; }
      if i == |log| { assert log[..i] == log; }
      assert GreedyAt(log, others, i);
    }
  }

  /** Appending a dispatch that takes its group off the front of what is waiting. */
  lemma DispatchAccounts(p: Pools, r: Block, d: Dispatch, rest: seq<Intention>, others: seq<Intention>)
    requires Accounted(r, others) && GreedyGroups(r.log, others)
    requires !d.ResolvedAlone?
    requires if d.MainMatched? then d.group == Group(r.rest, d.main.amountIn) && r.rest == d.group + rest else rest == r.rest
    ensures OthersOf(r.log + [d]) + rest == others
    ensures GreedyGroups(r.log + [d], others)
    ensures MainsOf(r.log + [d]) == MainsOf(r.log) + [d.main]
  {
    OneMoreDispatch(p, r.log, d, 0);
    var done := OthersOf(r.log);
    assert others[|done|..] == r.rest;
    if d.MainMatched? { assert done + d.group + rest == done + (d.group + rest); }
    GreedyOneMore(r.log, others, d);
  }

  /** The state of affairs after the given main intentions. */
  ghost predicate Progressing(r: Block, mains: seq<Intention>, others: seq<Intention>) {
    Accounted(r, others) && GreedyGroups(r.log, others) && MainsOf(r.log) == mains
  }

  lemma MatchMainAccounts(p: Pools, r: Block, main: Intention, pair: AccountId, mains: seq<Intention>, others: seq<Intention>)
    requires Progressing(r, mains, others)
    ensures Progressing(MatchMain(p, r, main, pair), mains + [main], others)
  {
    if Validate(p, r.book, main) == None {
      DispatchAccounts(p, r, VerifyFailed(main), r.rest, others);
    } else {
      var g := Group(r.rest, main.amountIn);
      var o := ResolveMatched(p, r.book, main, g, pair);
      DispatchAccounts(p, r, MainMatched(main, g, o.steps, o.residual), r.rest[|g|..], others);
    }
  }

  lemma NothingYet(b: Book, others: seq<Intention>)
    ensures Progressing(Block([], others, b), [], others)
  {
    assert [] + others == others;
  }

  lemma {:induction false} MatchMainsAccounts(p: Pools, b: Book, mains: seq<Intention>, others: seq<Intention>, pair: AccountId)
    ensures Progressing(MatchMains(p, b, mains, others, pair), mains, others)
  {
    if mains == [] {
      NothingYet(b, others);
    } else {
      var n := |mains| - 1;
      MatchMainsAccounts(p, b, mains[..n], others, pair);
      MatchMainAccounts(p, MatchMains(p, b, mains[..n], others, pair), mains[n], pair, mains[..n], others);
      assert mains == mains[..n] + [mains[n]];
    }
  }

  lemma ResolveNextAccounts(p: Pools, r: Block, mains: seq<Intention>, others: seq<Intention>)
    requires Progressing(r, mains, others) && r.rest != []
    ensures Progressing(ResolveNext(p, r), mains, others)
  {
    var d := ResolvedAlone(r.rest[0], ResolveSingle(p, r.book, r.rest[0]).amm);
    OneMoreDispatch(p, r.log, d, 0);
    GreedyOneMore(r.log, others, d);
    assert OthersOf(r.log) + [r.rest[0]] + r.rest[1..] == others;
  }

  lemma {:induction false} ResolveRestAccounts(p: Pools, r: Block, mains: seq<Intention>, others: seq<Intention>)
    requires Progressing(r, mains, others)
    ensures Progressing(ResolveRest(p, r), mains, others) && ResolveRest(p, r).rest == []
    decreases |r.rest|
  {
    if r.rest == [] {
    } else {
      ResolveNextAccounts(p, r, mains, others);
      ResolveRestAccounts(p, ResolveNext(p, r), mains, others);
    }
  }

  /** Both sides are dealt with once each, in sorted order, and every group is the
      greedy prefix of what was still waiting. */
  lemma ProcessDispatchesOnce(p: Pools, b: Book, mains: seq<Intention>, others: seq<Intention>, pair: AccountId)
    ensures var log := Process(p, b, mains, others, pair).log;
            && MainsOf(log) == SortDescending(mains)
            && OthersOf(log) == SortDescending(others)
            && GreedyGroups(log, SortDescending(others))
            && multiset(MainsOf(log)) == multiset(mains) && multiset(OthersOf(log)) == multiset(others)
  {
    MatchMainsAccounts(p, b, SortDescending(mains), SortDescending(others), pair);
    ResolveRestAccounts(p, MatchMains(p, b, SortDescending(mains), SortDescending(others), pair),
                        SortDescending(mains), SortDescending(others));
    SortPermutes(mains);
    SortPermutes(others);
  }

  // ----- conservation -----

  lemma {:induction false} MatchMainsConserves(p: Pools, b: Book, mains: seq<Intention>, others: seq<Intention>, pair: AccountId, x: AssetId)
    ensures var r := MatchMains(p, b, mains, others, pair);
            AssetTotal(r.book, x) + AllBurned(p, r.log, x) == AssetTotal(b, x)
  {
    if mains == [] {
    } else {
      var n := |mains| - 1;
      var r := MatchMains(p, b, mains[..n], others, pair);
      MatchMainsConserves(p, b, mains[..n], others, pair, x);
      var m := MatchMain(p, r, mains[n], pair);
      OneMoreDispatch(p, r.log, m.log[|r.log|], x);
      MatchConserves(p, r.book, mains[n], Group(r.rest, mains[n].amountIn), pair, x);
    }
  }

  lemma ResolveNextConserves(p: Pools, r: Block, x: AssetId)
    requires r.rest != []
    ensures var n := ResolveNext(p, r);
            AssetTotal(n.book, x) + AllBurned(p, n.log, x) == AssetTotal(r.book, x) + AllBurned(p, r.log, x)
  {
    SingleExact(p, r.book, r.rest[0]);
    OneMoreDispatch(p, r.log, ResolvedAlone(r.rest[0], ResolveSingle(p, r.book, r.rest[0]).amm), x);
  }

  lemma {:induction false} ResolveRestConserves(p: Pools, r: Block, x: AssetId)
    ensures var n := ResolveRest(p, r);
            AssetTotal(n.book, x) + AllBurned(p, n.log, x) == AssetTotal(r.book, x) + AllBurned(p, r.log, x)
    decreases |r.rest|
  {
    if r.rest == [] {
    } else {
      ResolveNextConserves(p, r, x);
      ResolveRestConserves(p, ResolveNext(p, r), x);
    }
  }

  /** The total of every asset changes by exactly the burned discounts. */
  lemma ProcessConserves(p: Pools, b: Book, mains: seq<Intention>, others: seq<Intention>, pair: AccountId, x: AssetId)
    ensures var r := Process(p, b, mains, others, pair);
            AssetTotal(r.book, x) + AllBurned(p, r.log, x) == AssetTotal(b, x)
  {
    MatchMainsConserves(p, b, SortDescending(mains), SortDescending(others), pair, x);
    ResolveRestConserves(p, MatchMains(p, b, SortDescending(mains), SortDescending(others), pair), x);
  }

  /** Only the native asset is ever burned. */
  lemma {:induction false} NothingElseBurned(p: Pools, ds: seq<Dispatch>, x: AssetId)
    requires x != p.native
    ensures AllBurned(p, ds, x) == 0
  {
    if ds == [] {
    } else {
      NothingElseBurned(p, ds[..|ds| - 1], x);
      var d := ds[|ds| - 1];
      if d.MainMatched? { NothingElseBurnedBySteps(p, d.steps, x); }
    }
  }

  lemma {:induction false} NothingElseBurnedBySteps(p: Pools, steps: seq<MatchStep>, x: AssetId)
    requires x != p.native
    ensures StepsBurned(p, steps, x) == 0
  {
    if steps == [] {
    } else {
      NothingElseBurnedBySteps(p, steps[..|steps| - 1], x);
    }
  }

  // ----- exactness -----

  /** Matched sales and purchases that settle are exact; a main or single intention
      traded through the pool spends, or receives, exactly what it should. */
  ghost predicate DispatchExact(d: Dispatch) {
    match d
    case VerifyFailed(_) => true
    case MainMatched(main, group, steps, residual) =>
      && StepsExact(group, steps)
      && GivenByMain(steps) <= main.amountIn
      && (residual.Some? ==> residual.value.discount == main.discount)
      && (residual.Some? && main.kind == SELL ==>
            && GivenByMain(steps) + residual.value.amount == main.amountIn
            && GotByMain(steps) + residual.value.amountOut >= main.tradeLimit)
      && (residual.Some? && main.kind == BUY ==>
            (GotByMain(steps) + residual.value.amount == main.amountOut <==> GotByMain(steps) <= main.amountOut))
    case ResolvedAlone(i, amm) =>
      amm.Some? ==>
        && amm.value.discount == i.discount
        && if i.kind == SELL then amm.value.amount == i.amountIn && amm.value.amountOut >= i.tradeLimit
           else amm.value.amount == i.amountOut && amm.value.amountOut <= i.tradeLimit
  }

  ghost predicate AllExact(log: seq<Dispatch>) {
    forall d :: d in log ==> DispatchExact(d)
  }

  lemma MatchIsExact(p: Pools, b: Book, main: Intention, g: seq<Intention>, pair: AccountId)
    ensures var o := ResolveMatched(p, b, main, g, pair); DispatchExact(MainMatched(main, g, o.steps, o.residual))
  {
    MainIsExact(p, b, main, g, pair);
    var o := ResolveMatched(p, b, main, g, pair);
    MatchedIsExact(p, b, main, g, pair);
    ResidualDiscount(p, b, main, g, pair);
    if o.residual.Some? {
      if main.kind == SELL { MainSaleExact(p, b, main, g, pair); } else { MainPurchaseExact(p, b, main, g, pair); }
    }
  }

  lemma {:induction false} MatchMainsExact(p: Pools, b: Book, mains: seq<Intention>, others: seq<Intention>, pair: AccountId)
    ensures AllExact(MatchMains(p, b, mains, others, pair).log)
  {
    if mains == [] {
    } else {
      var n := |mains| - 1;
      MatchMainsExact(p, b, mains[..n], others, pair);
      var r := MatchMains(p, b, mains[..n], others, pair);
      MatchIsExact(p, r.book, mains[n], Group(r.rest, mains[n].amountIn), pair);
    }
  }

  lemma {:induction false} ResolveRestExact(p: Pools, r: Block)
    requires AllExact(r.log)
    ensures AllExact(ResolveRest(p, r).log)
    decreases |r.rest|
  {
    if r.rest == [] {
    } else {
      SingleExact(p, r.book, r.rest[0]);
      ResolveRestExact(p, ResolveNext(p, r));
    }
  }

  lemma ProcessIsExact(p: Pools, b: Book, mains: seq<Intention>, others: seq<Intention>, pair: AccountId)
    ensures AllExact(Process(p, b, mains, others, pair).log)
  {
    MatchMainsExact(p, b, SortDescending(mains), SortDescending(others), pair);
    ResolveRestExact(p, MatchMains(p, b, SortDescending(mains), SortDescending(others), pair));
  }

  // ----- discounts -----

  /** No intention in the dispatch asks for a discount. */
  ghost predicate FullFee(d: Dispatch) {
    match d
    case VerifyFailed(_) => true
    case MainMatched(main, group, _, _) => !main.discount && forall i :: 0 <= i < |group| ==> !group[i].discount
    case ResolvedAlone(i, _) => !i.discount
  }

  lemma {:induction false} StepsBurnNothing(p: Pools, group: seq<Intention>, steps: seq<MatchStep>, x: AssetId)
    requires StepsExact(group, steps) && forall i :: 0 <= i < |group| ==> !group[i].discount
    ensures StepsBurned(p, steps, x) == 0
  {
    if steps == [] {
    } else {
      StepsBurnNothing(p, group[..|group| - 1], steps[..|steps| - 1], x);
    }
  }

  /** The intentions of a dispatch are among those dealt with. */
  lemma {:induction false} LoggedIntentions(ds: seq<Dispatch>, d: Dispatch)
    requires d in ds
    ensures !d.ResolvedAlone? ==> d.main in MainsOf(ds)
    ensures d.MainMatched? ==> forall i :: i in d.group ==> i in OthersOf(ds)
    ensures d.ResolvedAlone? ==> d.single in OthersOf(ds)
  {
    var front, last := ds[..|ds| - 1], ds[|ds| - 1];
    if d == last {
    } else {
      assert d in front;
      LoggedIntentions(front, d);
    }
  }

  /** If nobody asks for a discount, nothing is burned. */
  lemma {:induction false} NoDiscountNoBurn(p: Pools, ds: seq<Dispatch>, x: AssetId)
    requires AllExact(ds) && forall d :: d in ds ==> FullFee(d)
    ensures AllBurned(p, ds, x) == 0
  {
    if ds == [] {
    } else {
      var d := ds[|ds| - 1];
      assert d in ds;
      NoDiscountNoBurn(p, ds[..|ds| - 1], x);
      if d.MainMatched? { StepsBurnNothing(p, d.group, d.steps, x); }
    }
  }
}
