/** Finalizing a whole block: what the storage of intentions keeps, and what the
    logs of all pairs together amount to. */
module Finalization {
  import opened Numbers
  import opened Sums
  import opened Assets
  import opened Pool
  import opened DirectTrade
  import opened Matching
  import opened Blocks
  import opened Statements
  import opened Execution

  // ----- storage -----

  type Key = (AssetId, AssetId)

  const U32_SIZE := 0x1_0000_0000

  function Waiting(intentions: map<Key, seq<Intention>>, k: Key): seq<Intention> {
    if k in intentions then intentions[k] else []
  }

  function CountOf(counts: map<Key, nat>, k: Key): nat { if k in counts then counts[k] else 0 }

  /** How many intentions a storage key counts. */
  function Pending(intentions: map<Key, seq<Intention>>, k: Key): nat {
    |Waiting(intentions, k)| + if k.0 == k.1 then 0 else |Waiting(intentions, (k.1, k.0))|
  }

  /** The 32-bit counter of every ordered pair counts both directions. */
  ghost predicate Counted(counts: map<Key, nat>, intentions: map<Key, seq<Intention>>) {
    forall k: Key :: k.0 <= k.1 ==> CountOf(counts, k) == Pending(intentions, k) % U32_SIZE
  }

  /** The account of the pool of a pair. */
  function PairAccount(p: Pools, k: Key): AccountId { p.account(AssetPair(k.0, k.1)) }

  function KeyOf(i: Intention): Key { (i.assets.assetIn, i.assets.assetOut) }

  /** Every intention waits under its own pair. */
  ghost predicate OwnPairs(intentions: map<Key, seq<Intention>>) {
    forall k, i :: k in intentions && i in intentions[k] ==> KeyOf(i) == k
  }

  /** What registering keeps: counters of ordered pairs only, each the number of
      intentions waiting, and every intention under its own pair. */
  ghost predicate Consistent(counts: map<Key, nat>, intentions: map<Key, seq<Intention>>) {
    && Counted(counts, intentions)
    && (forall k :: k in counts ==> k.0 <= k.1)
    && OwnPairs(intentions)
  }

  /** Storage after registering one more intention. */
  function Appended(intentions: map<Key, seq<Intention>>, i: Intention): map<Key, seq<Intention>> {
    var k := KeyOf(i);
    intentions[k := Waiting(intentions, k) + [i]]
  }

  lemma PendingAppended(intentions: map<Key, seq<Intention>>, i: Intention, j: Key)
    requires j.0 <= j.1
    ensures Pending(Appended(intentions, i), j) == Pending(intentions, j) + if j == i.assets.Ordered() then 1 else 0
  {
    var k := KeyOf(i);
    assert j != k ==> Waiting(Appended(intentions, i), j) == Waiting(intentions, j);
    assert (j.1, j.0) != k ==> Waiting(Appended(intentions, i), (j.1, j.0)) == Waiting(intentions, (j.1, j.0));
  }

  function CountedOnce(counts: map<Key, nat>, i: Intention): map<Key, nat> {
    var key := i.assets.Ordered();
    counts[key := (CountOf(counts, key) + 1) % U32_SIZE]
  }

  lemma CountOneMore(n: nat)
    ensures (n % U32_SIZE + 1) % U32_SIZE == (n + 1) % U32_SIZE
  {
  }

  lemma RegisterKeepsCount(counts: map<Key, nat>, intentions: map<Key, seq<Intention>>, i: Intention, j: Key)
    requires j.0 <= j.1 && CountOf(counts, j) == Pending(intentions, j) % U32_SIZE
    ensures CountOf(CountedOnce(counts, i), j) == Pending(Appended(intentions, i), j) % U32_SIZE
  {
    PendingAppended(intentions, i, j);
    CountOneMore(Pending(intentions, j));
  }

  lemma RegisterKeepsCounted(counts: map<Key, nat>, intentions: map<Key, seq<Intention>>, i: Intention)
    requires Counted(counts, intentions)
    ensures Counted(CountedOnce(counts, i), Appended(intentions, i))
  {
    forall j: Key | j.0 <= j.1
      ensures CountOf(CountedOnce(counts, i), j) == Pending(Appended(intentions, i), j) % U32_SIZE
    {
      assert CountOf(counts, j) == Pending(intentions, j) % U32_SIZE;
      RegisterKeepsCount(counts, intentions, i, j);
    }
  }

  lemma RegisterKeepsOwnPairs(intentions: map<Key, seq<Intention>>, i: Intention)
    requires OwnPairs(intentions)
    ensures OwnPairs(Appended(intentions, i))
  {
    var after := Appended(intentions, i);
    forall k, j | k in after && j in after[k] ensures KeyOf(j) == k {
      if k == KeyOf(i) && j != i { assert k in intentions && j in intentions[k]; }
    }
  }

  /** Registering keeps the storage consistent. */
  lemma RegisterKeepsConsistent(counts: map<Key, nat>, intentions: map<Key, seq<Intention>>, i: Intention)
    requires Consistent(counts, intentions)
    ensures Consistent(CountedOnce(counts, i), Appended(intentions, i))
  {
    RegisterKeepsCounted(counts, intentions, i);
    RegisterKeepsOwnPairs(intentions, i);
  }

  lemma EmptyIsConsistent()
    ensures Consistent(map[], map[])
  {
  }

  // ----- what finalizing promises -----

  /** Both directions are dealt with once each and in order, in greedy groups, and
      everything that settled is exact. */
  ghost predicate Dealt(ds: seq<Dispatch>, mains: seq<Intention>, others: seq<Intention>) {
    && MainsOf(ds) == SortDescending(mains) && OthersOf(ds) == SortDescending(others)
    && GreedyGroups(ds, SortDescending(others))
    && AllExact(ds)
  }

  lemma ProcessIsDealt(p: Pools, b: Book, mains: seq<Intention>, others: seq<Intention>, pair: AccountId)
    ensures Dealt(Process(p, b, mains, others, pair).log, mains, others)
  {
    ProcessDispatchesOnce(p, b, mains, others, pair);
    ProcessIsExact(p, b, mains, others, pair);
  }

  /** What each pair took out of existence. */
  ghost function PairBurns(p: Pools, log: map<Key, seq<Dispatch>>, x: AssetId): map<Key, nat> {
    map k | k in log :: AllBurned(p, log[k], x)
  }

  /** What the block took out of existence. */
  ghost function BlockBurned(p: Pools, log: map<Key, seq<Dispatch>>, x: AssetId): nat { SumMap(PairBurns(p, log, x)) }

  lemma BurnedOneMore(p: Pools, log: map<Key, seq<Dispatch>>, k: Key, ds: seq<Dispatch>, x: AssetId)
    requires k !in log
    ensures BlockBurned(p, log[k := ds], x) == BlockBurned(p, log, x) + AllBurned(p, ds, x)
  {
    assert PairBurns(p, log[k := ds], x) == PairBurns(p, log, x)[k := AllBurned(p, ds, x)];
    SumMapPut(PairBurns(p, log, x), k, AllBurned(p, ds, x));
  }

  /** What the log of each pair does to one account in one asset. */
  ghost function PairNets(p: Pools, log: map<Key, seq<Dispatch>>, s: Slot): map<Key, int> {
    map k | k in log :: LogNet(p, log[k], PairAccount(p, k), s)
  }

  /** What the block does to one account in one asset. */
  ghost function BlockNet(p: Pools, log: map<Key, seq<Dispatch>>, s: Slot): int { NetMap(PairNets(p, log, s)) }

  lemma NetOneMore(p: Pools, log: map<Key, seq<Dispatch>>, k: Key, ds: seq<Dispatch>, s: Slot)
    requires k !in log
    ensures BlockNet(p, log[k := ds], s) == BlockNet(p, log, s) + LogNet(p, ds, PairAccount(p, k), s)
  {
    var net := LogNet(p, ds, PairAccount(p, k), s);
    assert PairNets(p, log[k := ds], s) == PairNets(p, log, s)[k := net];
    NetMapPut(PairNets(p, log, s), k, net);
  }

  /** A block conserves every asset but the native one. */
  lemma OnlyNativeBurned(p: Pools, log: map<Key, seq<Dispatch>>, x: AssetId)
    requires x != p.native
    ensures BlockBurned(p, log, x) == 0
  {
    forall k | k in log ensures AllBurned(p, log[k], x) == 0 { NothingElseBurned(p, log[k], x); }
    SumMapZero(PairBurns(p, log, x));
  }

  /** The pairs that are counted, and nothing else, have been dealt with. */
  ghost predicate Finalized(log: map<Key, seq<Dispatch>>, counts: map<Key, nat>, intentions: map<Key, seq<Intention>>) {
    && log.Keys == (set k | k in counts && counts[k] != 0)
    && forall k :: k in log ==> Dealt(log[k], Waiting(intentions, (k.1, k.0)), Waiting(intentions, k))
  }

  // ----- the block as an execution -----

  /** The ledger after the pairs of a block were processed in some order. */
  function BlockLedger(p: Pools, b: Book, log: map<Key, seq<Dispatch>>, order: seq<Key>): Book {
    if order == [] || order[|order| - 1] !in log then b
    else
      var k := order[|order| - 1];
      LedgerAfter(p, BlockLedger(p, b, log - {k}, order[..|order| - 1]), log[k], PairAccount(p, k))
  }

  /** The pairs in the log were processed in this order, each once, and every entry is
      what the pallet does on the ledger that all before it left. */
  ghost predicate BlockExecuted(p: Pools, b: Book, log: map<Key, seq<Dispatch>>, order: seq<Key>)
    decreases |order|
  {
    if order == [] then log == map[]
    else
      var k, before := order[|order| - 1], order[..|order| - 1];
      && k in log && BlockExecuted(p, b, log - {k}, before)
      && Genuine(p, BlockLedger(p, b, log - {k}, before), log[k], PairAccount(p, k))
  }

  /** One more pair, on the ledger left so far. */
  lemma OneMorePair(p: Pools, b: Book, log: map<Key, seq<Dispatch>>, order: seq<Key>, k: Key, r: Block)
    requires k !in log && BlockExecuted(p, b, log, order) && Executed(p, BlockLedger(p, b, log, order), r, PairAccount(p, k))
    ensures BlockExecuted(p, b, log[k := r.log], order + [k])
    ensures BlockLedger(p, b, log[k := r.log], order + [k]) == r.book
  {
    assert (order + [k])[..|order|] == order;
    assert log[k := r.log] - {k} == log;
  }

  /** The order lists every pair of the log, and no pair twice. */
  lemma {:induction false} OrderListsPairs(p: Pools, b: Book, log: map<Key, seq<Dispatch>>, order: seq<Key>)
    requires BlockExecuted(p, b, log, order)
    ensures (forall k :: k in order <==> k in log) && |order| == |log|
    decreases |order|
  {
    if order == [] {
    } else {
      var k, before := order[|order| - 1], order[..|order| - 1];
      OrderListsPairs(p, b, log - {k}, before);
      assert order == before + [k];
      assert log.Keys == (log - {k}).Keys + {k};
      assert |log| == |log.Keys| && |log - {k}| == |(log - {k}).Keys|;
    }
  }

  /** The total of an asset changed by exactly what the log burned. */
  ghost predicate TotalAccounted(p: Pools, b: Book, log: map<Key, seq<Dispatch>>, c: Book, x: AssetId) {
    AssetTotal(c, x) + BlockBurned(p, log, x) == AssetTotal(b, x)
  }

  /** What an account holds of an asset changed by exactly what the log says. */
  ghost predicate HeldAccounted(p: Pools, b: Book, log: map<Key, seq<Dispatch>>, c: Book, s: Slot) {
    Held(c, s) == Held(b, s) + BlockNet(p, log, s)
  }

  ghost predicate BlockAccounted(p: Pools, b: Book, log: map<Key, seq<Dispatch>>, c: Book) {
    && (forall x: AssetId :: TotalAccounted(p, b, log, c, x))
    && (forall s: Slot :: HeldAccounted(p, b, log, c, s))
  }

  lemma NothingSettledYet(p: Pools, b: Book)
    ensures BlockAccounted(p, b, map[], b)
  {
    forall x: AssetId ensures TotalAccounted(p, b, map[], b, x) { assert PairBurns(p, map[], x) == map[]; }
    forall s: Slot ensures HeldAccounted(p, b, map[], b, s) {
      assert PairNets(p, map[], s) == map[];
      assert Gains(PairNets(p, map[], s)) == map[] && Losses(PairNets(p, map[], s)) == map[];
    }
  }

  lemma OneMoreAccounted(p: Pools, b: Book, log: map<Key, seq<Dispatch>>, c: Book, k: Key, mains: seq<Intention>, others: seq<Intention>, r: Block)
    requires k !in log && BlockAccounted(p, b, log, c) && r == Process(p, c, mains, others, PairAccount(p, k))
    ensures BlockAccounted(p, b, log[k := r.log], r.book)
  {
    var after := log[k := r.log];
    forall x: AssetId ensures TotalAccounted(p, b, after, r.book, x) {
      assert TotalAccounted(p, b, log, c, x);
      ProcessConserves(p, c, mains, others, PairAccount(p, k), x);
      BurnedOneMore(p, log, k, r.log, x);
    }
    forall s: Slot ensures HeldAccounted(p, b, after, r.book, s) {
      assert HeldAccounted(p, b, log, c, s);
      ProcessAt(p, c, mains, others, PairAccount(p, k), s);
      NetOneMore(p, log, k, r.log, s);
    }
  }

  // ----- each intention once -----

  /** How often an intention is listed. */
  function Times(s: seq<Intention>, i: Intention): nat { multiset(s)[i] }

  ghost function WaitingByKey(intentions: map<Key, seq<Intention>>, i: Intention): map<Key, nat> {
    map k | k in intentions :: Times(intentions[k], i)
  }

  /** How often an intention waits, over all pairs. */
  ghost function WaitingTimes(intentions: map<Key, seq<Intention>>, i: Intention): nat { SumMap(WaitingByKey(intentions, i)) }

  ghost function DispatchedByKey(log: map<Key, seq<Dispatch>>, i: Intention): map<Key, nat> {
    map k | k in log :: Times(MainsOf(log[k]), i) + Times(OthersOf(log[k]), i)
  }

  /** How often an intention is dispatched, over all logs of the block. */
  ghost function DispatchedTimes(log: map<Key, seq<Dispatch>>, i: Intention): nat { SumMap(DispatchedByKey(log, i)) }

  lemma ElsewhereNotWaiting(intentions: map<Key, seq<Intention>>, i: Intention, k: Key)
    requires OwnPairs(intentions) && k != KeyOf(i)
    ensures Times(Waiting(intentions, k), i) == 0
  {
    if k in intentions { assert i !in intentions[k]; }
  }

  /** An intention waits under its own pair only. */
  lemma WaitsUnderOwnPair(intentions: map<Key, seq<Intention>>, i: Intention)
    requires OwnPairs(intentions)
    ensures WaitingTimes(intentions, i) == Times(Waiting(intentions, KeyOf(i)), i)
  {
    forall k | k in intentions && k != KeyOf(i) ensures Times(intentions[k], i) == 0 { ElsewhereNotWaiting(intentions, i, k); }
    SumMapOnly(WaitingByKey(intentions, i), KeyOf(i));
  }

  lemma DealtTimes(ds: seq<Dispatch>, mains: seq<Intention>, others: seq<Intention>, i: Intention)
    requires Dealt(ds, mains, others)
    ensures Times(MainsOf(ds), i) == Times(mains, i) && Times(OthersOf(ds), i) == Times(others, i)
  {
    SortPermutes(mains);
    SortPermutes(others);
  }

  /** Only the log of its own pair dispatches an intention. */
  lemma DispatchedUnderOwnPair(log: map<Key, seq<Dispatch>>, counts: map<Key, nat>, intentions: map<Key, seq<Intention>>, i: Intention)
    requires Consistent(counts, intentions) && Finalized(log, counts, intentions)
    ensures var k := i.assets.Ordered();
            DispatchedTimes(log, i) ==
            if k in log then Times(Waiting(intentions, (k.1, k.0)), i) + Times(Waiting(intentions, k), i) else 0
  {
    var o := i.assets.Ordered();
    forall k | k in log
      ensures DispatchedByKey(log, i)[k] == Times(Waiting(intentions, (k.1, k.0)), i) + Times(Waiting(intentions, k), i)
      ensures k != o ==> DispatchedByKey(log, i)[k] == 0
    {
      DealtTimes(log[k], Waiting(intentions, (k.1, k.0)), Waiting(intentions, k), i);
      if k != o {
        ElsewhereNotWaiting(intentions, i, k);
        ElsewhereNotWaiting(intentions, i, (k.1, k.0));
      }
    }
    SumMapOnly(DispatchedByKey(log, i), o);
  }

  /** Every waiting intention is dispatched exactly once, with two exceptions: an
      intention of an asset against itself is dispatched twice, and a pair whose
      number of intentions is a multiple of 2^32 is passed over. */
  lemma DispatchedExactly(log: map<Key, seq<Dispatch>>, counts: map<Key, nat>, intentions: map<Key, seq<Intention>>, i: Intention)
    requires Consistent(counts, intentions) && Finalized(log, counts, intentions)
    ensures var k := i.assets.Ordered();
            DispatchedTimes(log, i) ==
            if Pending(intentions, k) % U32_SIZE == 0 then 0
            else if k.0 == k.1 then 2 * WaitingTimes(intentions, i)
            else WaitingTimes(intentions, i)
  {
    var k := i.assets.Ordered();
    DispatchedUnderOwnPair(log, counts, intentions, i);
    WaitsUnderOwnPair(intentions, i);
    assert CountOf(counts, k) == Pending(intentions, k) % U32_SIZE;
    if k.0 != k.1 {
      if k == KeyOf(i) { ElsewhereNotWaiting(intentions, i, (k.1, k.0)); } else { ElsewhereNotWaiting(intentions, i, k); }
    }
  }

  /** No pair of an asset with itself is waiting, and no pair with a multiple of
      2^32 intentions. */
  ghost predicate Ordinary(intentions: map<Key, seq<Intention>>) {
    forall k: Key :: k.0 <= k.1 && Pending(intentions, k) != 0 ==> k.0 != k.1 && Pending(intentions, k) % U32_SIZE != 0
  }

  /** Something waits for a pair that has intentions pending. */
  lemma SomethingWaits(intentions: map<Key, seq<Intention>>, k: Key) returns (i: Intention)
    requires OwnPairs(intentions) && k.0 <= k.1 && Pending(intentions, k) != 0
    ensures i.assets.Ordered() == k && WaitingTimes(intentions, i) > 0
  {
    var j := if Waiting(intentions, k) != [] then k else (k.1, k.0);
    i := Waiting(intentions, j)[0];
    assert i in intentions[j];
    WaitsUnderOwnPair(intentions, i);
  }

  lemma OrdinaryOnce(log: map<Key, seq<Dispatch>>, counts: map<Key, nat>, intentions: map<Key, seq<Intention>>, i: Intention)
    requires Consistent(counts, intentions) && Finalized(log, counts, intentions) && Ordinary(intentions)
    ensures DispatchedTimes(log, i) == WaitingTimes(intentions, i)
  {
    var k := i.assets.Ordered();
    DispatchedExactly(log, counts, intentions, i);
    if Pending(intentions, k) == 0 { WaitsUnderOwnPair(intentions, i); }
  }

  /** Over the whole block every intention is dispatched as often as it waits, if
      and only if the waiting pairs are ordinary. */
  lemma OnceEach(log: map<Key, seq<Dispatch>>, counts: map<Key, nat>, intentions: map<Key, seq<Intention>>)
    requires Consistent(counts, intentions) && Finalized(log, counts, intentions)
    ensures (forall i: Intention :: DispatchedTimes(log, i) == WaitingTimes(intentions, i)) <==> Ordinary(intentions)
  {
    if Ordinary(intentions) {
      forall i: Intention ensures DispatchedTimes(log, i) == WaitingTimes(intentions, i) {
        OrdinaryOnce(log, counts, intentions, i);
      }
    } else {
      var k: Key :| k.0 <= k.1 && Pending(intentions, k) != 0 && (k.0 == k.1 || Pending(intentions, k) % U32_SIZE == 0);
      var i := SomethingWaits(intentions, k);
      DispatchedExactly(log, counts, intentions, i);
      assert DispatchedTimes(log, i) != WaitingTimes(intentions, i);
    }
  }

  // ----- discounts -----

  /** Nobody asks for a discount. */
  ghost predicate NoDiscounts(intentions: map<Key, seq<Intention>>) {
    forall k, i :: k in intentions && i in intentions[k] ==> !i.discount
  }

  lemma DealtWithoutDiscount(ds: seq<Dispatch>, mains: seq<Intention>, others: seq<Intention>, d: Dispatch)
    requires Dealt(ds, mains, others) && d in ds
    requires (forall i :: i in mains ==> !i.discount) && (forall i :: i in others ==> !i.discount)
    ensures FullFee(d)
  {
    forall i | i in MainsOf(ds) || i in OthersOf(ds) ensures !i.discount {
      DealtTimes(ds, mains, others, i);
      assert i in multiset(mains) || i in multiset(others);
    }
    LoggedIntentions(ds, d);
  }

  /** If nobody asks for a discount, a block burns nothing. */
  lemma NoDiscountsNoBurn(p: Pools, log: map<Key, seq<Dispatch>>, counts: map<Key, nat>, intentions: map<Key, seq<Intention>>, x: AssetId)
    requires Finalized(log, counts, intentions) && NoDiscounts(intentions)
    ensures BlockBurned(p, log, x) == 0
  {
    forall k | k in log ensures AllBurned(p, log[k], x) == 0 {
      forall d | d in log[k] ensures FullFee(d) {
        DealtWithoutDiscount(log[k], Waiting(intentions, (k.1, k.0)), Waiting(intentions, k), d);
      }
      NoDiscountNoBurn(p, log[k], x);
    }
    SumMapZero(PairBurns(p, log, x));
  }

  /** A block conserves every asset but the native one, and that one too if nobody
      asks for a discount. */
  lemma NothingBurned(p: Pools, b: Book, log: map<Key, seq<Dispatch>>, c: Book, counts: map<Key, nat>, intentions: map<Key, seq<Intention>>)
    requires Finalized(log, counts, intentions) && BlockAccounted(p, b, log, c)
    ensures forall x: AssetId :: x != p.native || NoDiscounts(intentions) ==> AssetTotal(c, x) == AssetTotal(b, x)
  {
    forall x: AssetId | x != p.native || NoDiscounts(intentions) ensures AssetTotal(c, x) == AssetTotal(b, x) {
      assert TotalAccounted(p, b, log, c, x);
      if x != p.native { OnlyNativeBurned(p, log, x); } else { NoDiscountsNoBurn(p, log, counts, intentions, x); }
    }
  }
}
