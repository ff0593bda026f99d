/** The balances pallet as it runs: storage items updated step by step. Each
    method is proved to have the effect that the ledger functions describe. */
module BalancesPallet {
  import opened Numbers
  import opened Locks
  import opened Ledgers
  import C = Currency

  // ----- closures and passes over lists -----

  /** The closure of `slash`: free balance first, then reserved. */
  method TakeFreeFirst(a: AccountData, best: Balance) returns (account: AccountData, taken: Balance)
    ensures account == C.TakeFromBoth(a, best)
    ensures taken == a.Holdings() - account.Holdings() <= best
  {
    account := a;
    var freeSlash := Min(account.free, best);
    account := account.(free := account.free - freeSlash);
    var remaining := best - freeSlash;
    if remaining != 0 {
      var reservedSlash := Min(account.reserved, remaining);
      account := account.(reserved := account.reserved - reservedSlash);
      taken := freeSlash + reservedSlash;
    } else {
      taken := freeSlash;
    }
  }

  lemma Associate(ls: seq<BalanceLock>, x: BalanceLock, tail: seq<BalanceLock>)
    ensures ls + ([x] + tail) == ls + [x] + tail
  {
  }

  /** A lock with another id is kept, whether or not the new lock is still pending. */
  lemma KeepLock(ls: seq<BalanceLock>, was: seq<BalanceLock>, i: nat, k: BalanceLock, extend: bool)
    requires i < |was| && was[i].id != k.id
    ensures ls + Upsert(was[i..], k, extend) == ls + [was[i]] + Upsert(was[i + 1..], k, extend)
    ensures ls + Remove(was[i..], k.id) == ls + [was[i]] + Remove(was[i + 1..], k.id)
  {
    assert was[i..][0] == was[i] && was[i..][1..] == was[i + 1..];
    Associate(ls, was[i], Upsert(was[i + 1..], k, extend));
    Associate(ls, was[i], Remove(was[i + 1..], k.id));
  }

  /** The first lock with the id makes place for the new one, later ones for nothing. */
  lemma ReplaceLock(ls: seq<BalanceLock>, was: seq<BalanceLock>, i: nat, k: BalanceLock, extend: bool)
    requires i < |was| && was[i].id == k.id
    ensures ls + Upsert(was[i..], k, extend) ==
            ls + [if extend then was[i].Extend(k) else k] + Remove(was[i + 1..], k.id)
    ensures Remove(was[i..], k.id) == Remove(was[i + 1..], k.id)
  {
    assert was[i..][0] == was[i] && was[i..][1..] == was[i + 1..];
    Associate(ls, if extend then was[i].Extend(k) else k, Remove(was[i + 1..], k.id));
  }

  /** One pass over the list in which the first lock with the id uses up the new
      lock; it is appended if none did. */
  method UpsertLock(was: seq<BalanceLock>, k: BalanceLock, extend: bool) returns (ls: seq<BalanceLock>)
    ensures ls == Upsert(was, k, extend)
  {
    var pending := true;
    ls := [];
    for i := 0 to |was|
      invariant ls + (if pending then Upsert(was[i..], k, extend) else Remove(was[i..], k.id)) == Upsert(was, k, extend)
    {
      var x := was[i];
      if x.id != k.id {
        KeepLock(ls, was, i, k, extend);
        ls := ls + [x];
      } else {
        ReplaceLock(ls, was, i, k, extend);
        if pending {
          ls := ls + [if extend then x.Extend(k) else k];
          pending := false;
        }
      }
    }
    if pending { ls := ls + [k]; }
  }

  method RetainOthers(was: seq<BalanceLock>, id: LockId) returns (ls: seq<BalanceLock>)
    ensures ls == Remove(was, id)
  {
    ls := [];
    for i := 0 to |was|
      invariant ls + Remove(was[i..], id) == Remove(was, id)
    {
      assert was[i..][1..] == was[i + 1..];
      if was[i].id != id { ls := ls + [was[i]]; }
    }
  }

  // ----- the pallet -----

  class Pallet {
    const ed: Balance
    var issuance: Balance
    var accounts: map<AccountId, AccountData>
    var locks: map<AccountId, seq<BalanceLock>>
    var consumers: map<AccountId, nat>

    constructor (l: Ledger)
      ensures State() == l
    {
      ed, issuance, accounts, locks, consumers := l.ed, l.issuance, l.accounts, l.locks, l.consumers;
    }

    ghost function State(): Ledger
      reads this
    {
      Ledger(ed, issuance, accounts, locks, consumers)
    }

    function Account(who: AccountId): (a: AccountData)
      reads this
      ensures a == State().Account(who)
    {
      if who in accounts then accounts[who] else AccountData(0, 0, 0, 0)
    }

    /** `is_provider_required`. */
    predicate Pinned(who: AccountId)
      reads this
    {
      who in consumers && consumers[who] > 0
    }

    // ----- imbalances and the account store -----

    method DropPositive(amount: Balance)
      modifies this`issuance
      ensures State() == Ledgers.DropPositive(old(State()), amount)
    {
      issuance := SatAdd(issuance, amount);
    }

    method DropNegative(amount: Balance)
      modifies this`issuance
      ensures State() == Ledgers.DropNegative(old(State()), amount)
    {
      issuance := SatSub(issuance, amount);
    }

    /** Write back an account and report the dust it leaves. The dust is still to
        be dropped, whether or not the store accepts. */
    method StoreAccount(who: AccountId, a: AccountData) returns (accepted: bool, dust: Balance)
      modifies this`accounts
      ensures accepted == Store(old(State()), who, a).Written?
      ensures dust == if a.Total() < ed then a.Total() else 0
      ensures Ledgers.DropNegative(State(), dust) == Store(old(State()), who, a).ledger
    {
      dust := 0;
      if a.Total() >= ed {
        accounts := accounts[who := a];
        return true, 0;
      }
      dust := a.Total();
      if who in accounts && Pinned(who) {
        return false, dust;
      }
      accounts := accounts - {who};
      return true, dust;
    }

    /** Write back an account and drop its dust. */
    method MutateAccount(who: AccountId, a: AccountData) returns (accepted: bool)
      modifies this`accounts, this`issuance
      ensures accepted == Store(old(State()), who, a).Written?
      ensures State() == Store(old(State()), who, a).ledger
    {
      var dust;
      accepted, dust := StoreAccount(who, a);
      DropNegative(dust);
    }

    // ----- Currency -----

    method Burn(amount: Balance) returns (positive: Balance)
      modifies this`issuance
      ensures Done(State(), positive) == C.Burn(old(State()), amount)
    {
      positive := amount;
      if issuance < amount {
        positive := issuance;
        issuance := 0;
      } else {
        issuance := issuance - amount;
      }
    }

    method Issue(amount: Balance) returns (negative: Balance)
      modifies this`issuance
      ensures Done(State(), negative) == C.Issue(old(State()), amount)
    {
      negative := amount;
      if issuance + amount > MAX {
        negative := MAX - issuance;
        issuance := MAX;
      } else {
        issuance := issuance + amount;
      }
    }

    /** The inner mutation, of the source, runs inside the outer one, of the
        destination; both dust cleaners are dropped once both are done. */
    method Transfer(source: AccountId, dest: AccountId, value: Balance, er: C.ExistenceRequirement)
      returns (r: Result<()>)
      modifies this`accounts, this`issuance
      ensures Done(State(), r) == C.Transfer(old(State()), source, dest, value, er)
    {
      if value == 0 || source == dest { return Ok(()); }
      var to := Account(dest);
      var from := Account(source);
      if from.free < value { return Err(InsufficientBalance); }
      from := from.(free := from.free - value);
      if to.free + value > MAX { return Err(Overflow); }
      to := to.(free := to.free + value);
      if to.Total() < ed { return Err(ExistentialDeposit); }
      if from.free < Account(source).Frozen(ToReasons({ForTransfer})) { return Err(LiquidityRestrictions); }
      var allowDeath := er == C.AllowDeath && !Pinned(source);
      if !allowDeath && from.Total() < ed { return Err(KeepAlive); }
      r := StoreNested(source, from, dest, to);
    }

    /** Write the inner account, then the outer one unless the inner was refused. */
    method StoreNested(inner: AccountId, a: AccountData, outer: AccountId, b: AccountData) returns (r: Result<()>)
      modifies this`accounts, this`issuance
      ensures Done(State(), r) == C.WriteBoth(old(State()), inner, a, outer, b)
    {
      var accepted, innerDust := StoreAccount(inner, a);
      var outerDust := 0;
      if accepted {
        accepted, outerDust := StoreAccount(outer, b);
      }
      DropNegative(innerDust);
      DropNegative(outerDust);
      r := if accepted then Ok(()) else Err(ConsumerRemaining);
    }

    method Withdraw(who: AccountId, value: Balance, reasons: set<WithdrawReason>, liveness: C.ExistenceRequirement)
      returns (r: Result<Balance>)
      modifies this`accounts, this`issuance
      ensures Done(State(), r) == C.Withdraw(old(State()), who, value, reasons, liveness)
    {
      if value == 0 { return Ok(0); }
      var account := Account(who);
      if account.free < value { return Err(InsufficientBalance); }
      var newFree := account.free - value;
      var wouldBeDead := WrapAdd(newFree, account.reserved) < ed;
      var wouldKill := wouldBeDead && WrapAdd(account.free, account.reserved) >= ed;
      if liveness == C.MustLive && wouldKill { return Err(KeepAlive); }
      if newFree < account.Frozen(ToReasons(reasons)) { return Err(LiquidityRestrictions); }
      var accepted := MutateAccount(who, account.(free := newFree));
      if !accepted {
        DropNegative(value);
        return Err(ConsumerRemaining);
      }
      return Ok(value);
    }

    method DepositIntoExisting(who: AccountId, value: Balance) returns (r: Result<Balance>)
      modifies this`accounts, this`issuance
      ensures Done(State(), r) == C.DepositIntoExisting(old(State()), who, value)
    {
      if value == 0 { return Ok(0); }
      if who !in accounts { return Err(DeadAccount); }
      var account := Account(who);
      if account.free + value > MAX { return Err(Overflow); }
      var accepted := MutateAccount(who, account.(free := account.free + value));
      if !accepted {
        DropPositive(value);
        return Err(ConsumerRemaining);
      }
      return Ok(value);
    }

    method DepositCreating(who: AccountId, value: Balance) returns (positive: Balance)
      modifies this`accounts, this`issuance
      ensures Done(State(), positive) == C.DepositCreating(old(State()), who, value)
    {
      if value == 0 { return 0; }
      var account := Account(who);
      if value < ed && who !in accounts { return 0; }
      positive := 0;
      if account.free + value <= MAX {
        account := account.(free := account.free + value);
        positive := value;
      }
      var accepted := MutateAccount(who, account);
      if !accepted {
        DropPositive(positive);
        positive := 0;
      }
    }

    method MintInto(who: AccountId, amount: Balance) returns (r: Result<()>)
      modifies this`accounts, this`issuance
      ensures Done(State(), r) == C.MintInto(old(State()), who, amount)
    {
      if amount == 0 { return Ok(()); }
      var account := Account(who);
      if issuance + amount > MAX || account.Total() + amount > MAX { return Err(Overflow); }
      if account.Total() + amount < ed { return Err(BelowMinimum); }
      var accepted := MutateAccount(who, account.(free := account.free + amount));
      if !accepted { return Err(ConsumerRemaining); }
      issuance := WrapAdd(issuance, amount);
      return Ok(());
    }

    method MakeFreeBalanceBe(who: AccountId, value: Balance) returns (imbalance: C.SignedImbalance)
      modifies this`accounts, this`issuance
      ensures Done(State(), imbalance) == C.MakeFreeBalanceBe(old(State()), who, value)
    {
      var account := Account(who);
      if SatAdd(value, account.reserved) < ed && who !in accounts { return C.Positive(0); }
      imbalance :=
        if account.free <= value then C.Positive(value - account.free) else C.Negative(account.free - value);
      var accepted := MutateAccount(who, account.(free := value));
      if !accepted {
        if imbalance.Positive? { DropPositive(imbalance.amount); } else { DropNegative(imbalance.amount); }
        imbalance := C.Positive(0);
      }
    }

    /** Drop the imbalance between an old and a new amount. */
    method SquareUp(was: Balance, becomes: Balance)
      modifies this`issuance
      ensures State() == C.SquareUp(old(State()), was, becomes)
    {
      if becomes > was {
        DropPositive(becomes - was);
      } else if becomes < was {
        DropNegative(was - becomes);
      }
    }

    /** The root call: the differences are dropped inside the closure. */
    method SetBalance(who: AccountId, free: Balance, reserved: Balance) returns (r: Result<()>)
      modifies this`accounts, this`issuance
      ensures Done(State(), r) == C.SetBalance(old(State()), who, free, reserved)
    {
      var wipeout := WrapAdd(free, reserved) < ed;
      var newFree := if wipeout then 0 else free;
      var newReserved := if wipeout then 0 else reserved;
      var account := Account(who);
      SquareUp(account.free, newFree);
      SquareUp(account.reserved, newReserved);
      var accepted := MutateAccount(who, account.(free := newFree, reserved := newReserved));
      r := if accepted then Ok(()) else Err(ConsumerRemaining);
    }

    // ----- ReservableCurrency -----

    method Reserve(who: AccountId, value: Balance) returns (r: Result<()>)
      modifies this`accounts, this`issuance
      ensures Done(State(), r) == C.Reserve(old(State()), who, value)
    {
      if value == 0 { return Ok(()); }
      var account := Account(who);
      if account.free < value { return Err(InsufficientBalance); }
      account := account.(free := account.free - value);
      if account.reserved + value > MAX { return Err(Overflow); }
      account := account.(reserved := account.reserved + value);
      if account.free < Account(who).Frozen(ToReasons({ForReserve})) { return Err(LiquidityRestrictions); }
      var accepted := MutateAccount(who, account);
      r := if accepted then Ok(()) else Err(ConsumerRemaining);
    }

    method Unreserve(who: AccountId, value: Balance) returns (left: Balance)
      modifies this`accounts, this`issuance
      ensures Done(State(), left) == C.Unreserve(old(State()), who, value)
    {
      if value == 0 { return 0; }
      var account := Account(who);
      if account.Total() == 0 { return value; }
      var actual := Min(account.reserved, value);
      account := account.(reserved := account.reserved - actual);
      account := account.(free := SatAdd(account.free, actual));
      var accepted := MutateAccount(who, account);
      left := if accepted then value - actual else value;
    }

    method TransferReservedToSelf(who: AccountId, value: Balance, status: C.Status) returns (r: Result<Balance>)
      requires value != 0
      modifies this`accounts, this`issuance
      ensures forall bestEffort ::
        Done(State(), r) == C.TransferReserved(old(State()), who, who, value, bestEffort, status)
    {
      if status == C.ToReserved { return Ok(SatSub(value, Account(who).reserved)); }
      var left := Unreserve(who, value);
      return Ok(left);
    }

    method TransferReserved(slashed: AccountId, beneficiary: AccountId, value: Balance, bestEffort: bool, status: C.Status)
      returns (r: Result<Balance>)
      modifies this`accounts, this`issuance
      ensures Done(State(), r) == C.TransferReserved(old(State()), slashed, beneficiary, value, bestEffort, status)
    {
      if value == 0 { return Ok(0); }
      if slashed == beneficiary {
        r := TransferReservedToSelf(slashed, value, status);
        return;
      }
      if beneficiary !in accounts { return Err(DeadAccount); }
      var to := Account(beneficiary);
      var from := Account(slashed);
      var actual := Min(from.reserved, value);
      if !bestEffort && actual != value { return Err(InsufficientBalance); }
      if status == C.ToFree {
        if to.free + actual > MAX { return Err(Overflow); }
        to := to.(free := to.free + actual);
      } else {
        if to.reserved + actual > MAX { return Err(Overflow); }
        to := to.(reserved := to.reserved + actual);
      }
      from := from.(reserved := from.reserved - actual);
      assert C.RepatriateClosure(State(), slashed, beneficiary, value, bestEffort, status) == Ok((from, to));
      var written := StoreNested(slashed, from, beneficiary, to);
      r := if written.Ok? then Ok(actual) else Err(written.error);
    }

    method RepatriateReserved(slashed: AccountId, beneficiary: AccountId, value: Balance, status: C.Status)
      returns (r: Result<Balance>)
      modifies this`accounts, this`issuance
      ensures Done(State(), r) == C.Repatriate(old(State()), slashed, beneficiary, value, status)
    {
      r := TransferReserved(slashed, beneficiary, value, true, status);
      if r.Ok? { r := Ok(SatSub(value, r.value)); }
    }

    // ----- slashing -----

    /** One attempt of `slash`: the account is written back and, if the store
        refuses, the imbalance made for it is dropped. */
    method TrySlash(who: AccountId, value: Balance, best: Balance) returns (r: Option<C.Slashed>)
      requires best <= value
      modifies this`accounts, this`issuance
      ensures Done(State(), r) == C.TryOnce(old(State()), who, value, true, best)
    {
      var account, taken := TakeFreeFirst(Account(who), best);
      var accepted := MutateAccount(who, account);
      if accepted { return Some(C.Slashed(taken, value - taken)); }
      DropNegative(taken);
      return None;
    }

    /** One attempt of `slash_reserved`. */
    method TrySlashReserved(who: AccountId, value: Balance, best: Balance) returns (r: Option<C.Slashed>)
      requires best <= value
      modifies this`accounts, this`issuance
      ensures Done(State(), r) == C.TryOnce(old(State()), who, value, false, best)
    {
      var account := Account(who);
      var actual := Min(account.reserved, best);
      account := account.(reserved := account.reserved - actual);
      assert (account, actual) == C.Attempt(State(), who, false, best);
      var accepted := MutateAccount(who, account);
      if accepted { return Some(C.Slashed(actual, value - actual)); }
      DropNegative(actual);
      return None;
    }

    /** `slash` and `slash_reserved`: at most two attempts. */
    method Slash(who: AccountId, value: Balance, fromFree: bool) returns (r: C.Slashed)
      modifies this`accounts, this`issuance
      ensures Done(State(), r) == C.Slash(old(State()), who, value, fromFree)
    {
      if value == 0 { return C.Slashed(0, 0); }
      if Account(who).Total() == 0 { return C.Slashed(0, value); }
      ghost var first := C.TryOnce(State(), who, value, fromFree, value);
      ghost var second := C.TryOnce(first.ledger, who, value, fromFree, C.BestAlive(first.ledger, who, value));
      var attempt := 0;
      while attempt < 2
        invariant 0 <= attempt <= 2
        invariant attempt == 0 ==> State() == old(State())
        invariant attempt == 1 ==> Done(State(), None) == first
        invariant attempt == 2 ==> first.result == None && Done(State(), None) == second
      {
        var best := value;
        if attempt > 0 {
          var account := Account(who);
          best := Min(value, SatSub(WrapAdd(account.free, account.reserved), ed));
        }
        var attempted;
        if fromFree {
          attempted := TrySlash(who, value, best);
        } else {
          attempted := TrySlashReserved(who, value, best);
        }
        if attempted.Some? { return attempted.value; }
        attempt := attempt + 1;
      }
      return C.Slashed(0, value);
    }

    // ----- LockableCurrency -----

    /** Cache the maxima of the list, store the list, and hold one consumer
        reference as long as it is not empty. */
    method UpdateLocks(who: AccountId, ls: seq<BalanceLock>)
      modifies this
      ensures State() == C.UpdateLocks(old(State()), who, ls)
    {
      var misc, fee := 0, 0;
      for i := 0 to |ls|
        invariant misc == FrozenBy(ls[..i], Misc) && fee == FrozenBy(ls[..i], Fee)
        invariant State() == old(State())
      {
        assert ls[..i + 1][..i] == ls[..i];
        if ls[i].reasons == All || ls[i].reasons == Misc { misc := Max(misc, ls[i].amount); }
        if ls[i].reasons == All || ls[i].reasons == Fee { fee := Max(fee, ls[i].amount); }
      }
      assert ls[..|ls|] == ls;
      var _ := MutateAccount(who, Account(who).(miscFrozen := misc, feeFrozen := fee));
      var existed := who in locks;
      if ls == [] {
        locks := locks - {who};
        if existed && who in consumers && consumers[who] > 0 { consumers := consumers[who := consumers[who] - 1]; }
      } else {
        locks := locks[who := ls];
        if !existed && who in accounts {
          consumers := consumers[who := (if who in consumers then consumers[who] else 0) + 1];
        }
      }
    }

    /** `set_lock` and, with `extend`, `extend_lock`. */
    method SetLock(who: AccountId, id: LockId, amount: Balance, reasons: set<WithdrawReason>, extend: bool)
      modifies this
      ensures State() == C.SetLock(old(State()), who, id, amount, reasons, extend)
    {
      if amount == 0 || reasons == {} { return; }
      var was := if who in locks then locks[who] else [];
      var ls := UpsertLock(was, BalanceLock(id, amount, ToReasons(reasons)), extend);
      UpdateLocks(who, ls);
    }

    method RemoveLock(who: AccountId, id: LockId)
      modifies this
      ensures State() == C.RemoveLock(old(State()), who, id)
    {
      var was := if who in locks then locks[who] else [];
      var ls := RetainOthers(was, id);
      UpdateLocks(who, ls);
    }
  }
}
