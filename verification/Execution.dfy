/** The log of a pair is an execution: every entry is what the pallet does with the
    intention on the ledger that the entries before it left. */
module Execution {
  import opened Numbers
  import opened Assets
  import opened Pool
  import opened DirectTrade
  import opened Matching
  import opened Resolution
  import opened Blocks

  /** The pool would trade the intention on this ledger. */
  predicate Verifies(p: Pools, b: Book, i: Intention) {
    if i.kind == SELL then ValidateSell(p, b, i.who, i.assets, i.amountIn, i.tradeLimit, i.discount).Some?
    else ValidateBuy(p, b, i.who, i.assets, i.amountOut, i.tradeLimit, i.discount).Some?
  }

  /** The ledger after one entry. */
  function AfterEntry(p: Pools, c: Book, d: Dispatch, pair: AccountId): Book {
    match d
    case VerifyFailed(_) => c
    case MainMatched(main, group, _, _) => ResolveMatched(p, c, main, group, pair).book
    case ResolvedAlone(i, _) => ResolveSingle(p, c, i).book
  }

  /** The ledger after the entries of a log, one after the other. */
  function LedgerAfter(p: Pools, b: Book, log: seq<Dispatch>, pair: AccountId): Book {
    if log == [] then b else AfterEntry(p, LedgerAfter(p, b, log[..|log| - 1], pair), log[|log| - 1], pair)
  }

  /** An intention fails verification if and only if the pool would not trade it on the
      ledger it meets; a verified one is matched with what the entry says it was, and a
      single one traded as it says. */
  predicate GenuineEntry(p: Pools, c: Book, d: Dispatch, pair: AccountId) {
    match d
    case VerifyFailed(main) => !Verifies(p, c, main)
    case MainMatched(main, group, steps, residual) =>
      && Verifies(p, c, main)
      && steps == MatchAll(p, c, main, group, pair).steps
      && residual == ResolveMatched(p, c, main, group, pair).residual
    case ResolvedAlone(i, amm) => amm == ResolveSingle(p, c, i).amm
  }

  predicate GenuineAt(p: Pools, b: Book, log: seq<Dispatch>, pair: AccountId, i: nat) {
    i < |log| ==> GenuineEntry(p, LedgerAfter(p, b, log[..i], pair), log[i], pair)
  }

  /** Every entry is genuine, and single intentions come after all main ones. */
  ghost predicate Genuine(p: Pools, b: Book, log: seq<Dispatch>, pair: AccountId) {
    && (forall i: nat :: GenuineAt(p, b, log, pair, i))
    && (forall i, j :: 0 <= i < j < |log| && log[i].ResolvedAlone? ==> log[j].ResolvedAlone?)
  }

  /** The log so far is genuine and accounts for the ledger. */
  ghost predicate Executed(p: Pools, b: Book, r: Block, pair: AccountId) {
    Genuine(p, b, r.log, pair) && r.book == LedgerAfter(p, b, r.log, pair)
  }

  /** One more entry, on the ledger left so far. */
  lemma OneMoreEntry(p: Pools, b: Book, log: seq<Dispatch>, d: Dispatch, pair: AccountId)
    requires Genuine(p, b, log, pair) && GenuineEntry(p, LedgerAfter(p, b, log, pair), d, pair)
    requires d.ResolvedAlone? || forall i :: 0 <= i < |log| ==> !log[i].ResolvedAlone?
    ensures Genuine(p, b, log + [d], pair)
  {
    var more := log + [d];
    forall i: nat ensures GenuineAt(p, b, more, pair, i) {
      if i < |log| {
        assert GenuineAt(p, b, log, pair, i) && more[..i] == log[..i] && more[i] == log[i];
      } else if i == |log| {
        assert more[..i] == log && more[i] == d;
      }
    }
  }

  lemma LedgerOneMore(p: Pools, b: Book, log: seq<Dispatch>, d: Dispatch, pair: AccountId)
    ensures LedgerAfter(p, b, log + [d], pair) == AfterEntry(p, LedgerAfter(p, b, log, pair), d, pair)
  {
    assert (log + [d])[..|log|] == log;
  }

  ghost predicate NoneAlone(log: seq<Dispatch>) {
    forall i :: 0 <= i < |log| ==> !log[i].ResolvedAlone?
  }

  /** Appending a genuine entry with the ledger it leaves. */
  lemma EntryExecutes(p: Pools, b: Book, r: Block, d: Dispatch, n: Block, pair: AccountId)
    requires Executed(p, b, r, pair) && (d.ResolvedAlone? || NoneAlone(r.log))
    requires GenuineEntry(p, r.book, d, pair)
    requires n.log == r.log + [d] && n.book == AfterEntry(p, r.book, d, pair)
    ensures Executed(p, b, n, pair)
  {
    OneMoreEntry(p, b, r.log, d, pair);
    LedgerOneMore(p, b, r.log, d, pair);
  }

  lemma MatchMainExecutes(p: Pools, b: Book, r: Block, main: Intention, pair: AccountId)
    requires Executed(p, b, r, pair) && NoneAlone(r.log)
    ensures Executed(p, b, MatchMain(p, r, main, pair), pair) && NoneAlone(MatchMain(p, r, main, pair).log)
  {
    var n := MatchMain(p, r, main, pair);
    var d := n.log[|r.log|];
    assert Verifies(p, r.book, main) <==> Validate(p, r.book, main).Some?;
    EntryExecutes(p, b, r, d, n, pair);
  }

  lemma {:induction false} MatchMainsExecutes(p: Pools, b: Book, mains: seq<Intention>, others: seq<Intention>, pair: AccountId)
    ensures var r := MatchMains(p, b, mains, others, pair); Executed(p, b, r, pair) && NoneAlone(r.log)
  {
    if mains == [] {
    } else {
      var n := |mains| - 1;
      MatchMainsExecutes(p, b, mains[..n], others, pair);
      MatchMainExecutes(p, b, MatchMains(p, b, mains[..n], others, pair), mains[n], pair);
    }
  }

  lemma ResolveNextExecutes(p: Pools, b: Book, r: Block, pair: AccountId)
    requires Executed(p, b, r, pair) && r.rest != []
    ensures Executed(p, b, ResolveNext(p, r), pair)
  {
    var d := ResolvedAlone(r.rest[0], ResolveSingle(p, r.book, r.rest[0]).amm);
    EntryExecutes(p, b, r, d, ResolveNext(p, r), pair);
  }

  lemma {:induction false} ResolveRestExecutes(p: Pools, b: Book, r: Block, pair: AccountId)
    requires Executed(p, b, r, pair)
    ensures Executed(p, b, ResolveRest(p, r), pair)
    decreases |r.rest|
  {
    if r.rest == [] {
    } else {
      ResolveNextExecutes(p, b, r, pair);
      ResolveRestExecutes(p, b, ResolveNext(p, r), pair);
    }
  }

  /** Processing a pair yields a genuine log, and the ledger that its entries lead to. */
  lemma ProcessExecutes(p: Pools, b: Book, mains: seq<Intention>, others: seq<Intention>, pair: AccountId)
    ensures Executed(p, b, Process(p, b, mains, others, pair), pair)
  {
    MatchMainsExecutes(p, b, SortDescending(mains), SortDescending(others), pair);
    ResolveRestExecutes(p, b, MatchMains(p, b, SortDescending(mains), SortDescending(others), pair), pair);
  }
}
