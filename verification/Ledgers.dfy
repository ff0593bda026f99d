/** The storage of the balances pallet as one value, and the single gate through
    which every account write goes. */
module Ledgers {
  import opened Numbers
  import opened Sums
  import opened Locks

  datatype AccountData = AccountData(free: Balance, reserved: Balance, miscFrozen: Balance, feeFrozen: Balance) {
    /** The amount `free` may not be reduced beyond for the given reasons. */
    function Frozen(r: Reasons): Balance {
      match r
      case All => Max(miscFrozen, feeFrozen)
      case Misc => miscFrozen
      case Fee => feeFrozen
    }

    /** The pallet's own total, which saturates. */
    function Total(): Balance { SatAdd(free, reserved) }

    /** What the account really holds: free plus reserved. Chosen by that equation
        rather than written as the sum, so that the solver does not unfold it for
        every account it meets. */
    function Holdings(): nat { var h: nat :| h == free + reserved; h }
  }

  datatype Error =
    | LiquidityRestrictions | Overflow | InsufficientBalance | ExistentialDeposit
    | KeepAlive | DeadAccount | BelowMinimum
    | ConsumerRemaining  // the account store refused to let the account die

  datatype Result<+T> = Ok(value: T) | Err(error: Error)

  datatype Ledger = Ledger(
    ed: Balance,
    issuance: Balance,
    accounts: map<AccountId, AccountData>,
    locks: map<AccountId, seq<BalanceLock>>,
    consumers: map<AccountId, nat>)
  {
    /** The stored account, or the default one, whose fields are all zero. */
    function Account(who: AccountId): AccountData {
      if who in accounts then accounts[who] else AccountData(0, 0, 0, 0)
    }

    /** What the account holds, nothing if there is none. */
    function Held(who: AccountId): nat {
      if who in accounts then accounts[who].Holdings() else 0
    }

    function LocksOf(who: AccountId): seq<BalanceLock> {
      if who in locks then locks[who] else []
    }

    function Consumers(who: AccountId): nat {
      if who in consumers then consumers[who] else 0
    }

    /** Pinned accounts must stay alive: `is_provider_required`. */
    predicate Pinned(who: AccountId) { Consumers(who) > 0 }

    /** The sum of free and reserved balance over all accounts. */
    ghost function Supply(): nat { SumMap(HoldingsOf(accounts)) }

    /** How far the accounts are ahead of the issuance counter. */
    ghost function Gap(): int { Supply() - issuance }
  }

  ghost function HoldingsOf(accounts: map<AccountId, AccountData>): map<AccountId, nat> {
    map w | w in accounts :: accounts[w].Holdings()
  }

  /** A new ledger together with what the call returned. */
  datatype Done<+T> = Done(ledger: Ledger, result: T)

  // ----- imbalances that go out of scope -----

  function DropPositive(l: Ledger, amount: nat): Ledger {
    l.(issuance := SatAdd(l.issuance, amount))
  }

  function DropNegative(l: Ledger, amount: nat): Ledger {
    l.(issuance := SatSub(l.issuance, amount))
  }

  // ----- the account store -----

  function Put(l: Ledger, who: AccountId, a: AccountData): Ledger {
    l.(accounts := l.accounts[who := a])
  }

  function Delete(l: Ledger, who: AccountId): Ledger {
    l.(accounts := l.accounts - {who})
  }

  /** The answer of the account store to a mutation that leaves `a`. */
  predicate Refuses(l: Ledger, who: AccountId, a: AccountData) {
    a.Total() < l.ed && who in l.accounts && l.Pinned(who)
  }

  datatype Stored = Written(ledger: Ledger) | Refused(ledger: Ledger)

  /** `try_mutate_account` once its closure has produced `a`: an account below the
      existential deposit is removed and what was left is dropped as dust. A
      pinned account may not be removed; the dust imbalance exists by the time
      the store refuses, so it is dropped all the same. */
  function Store(l: Ledger, who: AccountId, a: AccountData): Stored {
    if a.Total() >= l.ed then Written(Put(l, who, a))
    else if Refuses(l, who, a) then Refused(DropNegative(l, a.Total()))
    else Written(DropNegative(Delete(l, who), a.Total()))
  }

  // ----- what a write does to the supply -----

  lemma HeldIsHoldings(l: Ledger, who: AccountId)
    ensures l.Account(who).Holdings() == l.Held(who)
  {
  }

  lemma SupplyPut(l: Ledger, who: AccountId, a: AccountData)
    ensures Put(l, who, a).Supply() ==
            l.Supply() - l.Held(who) + a.Holdings()
    ensures who in l.accounts ==> l.Held(who) <= l.Supply()
  {
    assert HoldingsOf(l.accounts[who := a]) == HoldingsOf(l.accounts)[who := a.Holdings()];
    SumMapPut(HoldingsOf(l.accounts), who, a.Holdings());
    if who in l.accounts { SumMapBound(HoldingsOf(l.accounts), who); }
  }

  lemma SupplyRemove(l: Ledger, who: AccountId)
    ensures Delete(l, who).Supply() == l.Supply() - l.Held(who)
  {
    if who in l.accounts {
      assert HoldingsOf(l.accounts - {who}) == HoldingsOf(l.accounts) - {who};
      SumMapRemove(HoldingsOf(l.accounts), who);
    } else {
      assert l.accounts - {who} == l.accounts;
    }
  }

  /** What dropping a negative imbalance really takes off the issuance. */
  function Taken(l: Ledger, amount: nat): nat { Min(l.issuance, amount) }

  lemma DropGap(l: Ledger, amount: nat)
    ensures DropNegative(l, amount).Gap() == l.Gap() + Taken(l, amount)
    ensures DropPositive(l, amount).Gap() == l.Gap() - Min(amount, MAX - l.issuance)
  {
    assert DropNegative(l, amount).accounts == l.accounts;
    assert DropPositive(l, amount).accounts == l.accounts;
  }

  /** A surviving account moves the gap by its change. */
  lemma StoreAlive(l: Ledger, who: AccountId, a: AccountData)
    requires a.Total() >= l.ed
    ensures Store(l, who, a).Written?
    ensures Store(l, who, a).ledger.Gap() == l.Gap() + a.Holdings() - l.Held(who)
  {
    SupplyPut(l, who, a);
  }

  /** A dying account takes all it held with it, and its dust leaves the issuance. */
  lemma StoreDead(l: Ledger, who: AccountId, a: AccountData)
    requires a.Total() < l.ed && !Refuses(l, who, a)
    ensures Store(l, who, a).Written?
    ensures Store(l, who, a).ledger.Gap() == l.Gap() - l.Held(who) + Taken(l, a.Total())
  {
    SupplyRemove(l, who);
    DropGap(Delete(l, who), a.Total());
  }

  /** A refused write still drops the dust. */
  lemma StoreRefused(l: Ledger, who: AccountId, a: AccountData)
    requires Refuses(l, who, a)
    ensures Store(l, who, a) == Refused(DropNegative(l, a.Total()))
    ensures Store(l, who, a).ledger.Gap() == l.Gap() + Taken(l, a.Total())
  {
    DropGap(l, a.Total());
  }
}
