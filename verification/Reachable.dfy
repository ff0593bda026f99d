/** What holds in every reachable state of the balances pallet. */
module Reachable {
  import opened Numbers
  import opened Sums
  import opened Locks
  import opened Ledgers
  import opened Currency
  import opened Issuance

  /** For every account the cached frozen amounts are the maxima over its lock
      list, and an account with locks exists and is pinned by them. */
  ghost predicate LockLaw(l: Ledger) {
    forall w: AccountId :: LockLawAt(l, w)
  }

  predicate LockLawAt(l: Ledger, w: AccountId) {
    && (w in l.accounts ==> CachedFor(l.accounts[w], l.LocksOf(w)))
    && (w in l.locks ==> Locked(l, w))
  }

  predicate CachedFor(a: AccountData, ls: seq<BalanceLock>) {
    a.miscFrozen == FrozenBy(ls, Misc) && a.feeFrozen == FrozenBy(ls, Fee)
  }

  predicate Locked(l: Ledger, w: AccountId) {
    w in l.locks && l.locks[w] != [] && UniqueIds(l.locks[w]) && w in l.accounts && l.Pinned(w)
  }

  /** A lock call that changes anything is for a live account, unless there is no
      existential deposit. */
  predicate Placed(l: Ledger, c: Call) {
    c.SetLockCall? && c.amount != 0 && c.reasons != {} ==> c.who in l.accounts || l.ed == 0
  }

  ghost predicate Laws(l: Ledger) { EdLaw(l) && LockLaw(l) }

  // ----- writes that leave the frozen amounts alone -----

  predicate SameFrozen(a: AccountData, b: AccountData) {
    a.miscFrozen == b.miscFrozen && a.feeFrozen == b.feeFrozen
  }

  lemma StoreKeepsLaws(l: Ledger, w: AccountId, a: AccountData)
    requires Laws(l) && SameFrozen(a, l.Account(w))
    ensures Laws(Store(l, w, a).ledger)
  {
    var n := Store(l, w, a).ledger;
    forall v ensures LockLawAt(n, v) { assert LockLawAt(l, v); }
  }

  lemma IssuanceIsIrrelevant(l: Ledger, i: Balance)
    requires Laws(l)
    ensures Laws(l.(issuance := i))
  {
    forall v ensures LockLawAt(l.(issuance := i), v) { assert LockLawAt(l, v); }
  }

  lemma DropsKeepLaws(l: Ledger, n: nat)
    requires Laws(l)
    ensures Laws(DropPositive(l, n)) && Laws(DropNegative(l, n))
  {
    IssuanceIsIrrelevant(l, SatAdd(l.issuance, n));
    IssuanceIsIrrelevant(l, SatSub(l.issuance, n));
  }

  lemma WriteBothKeepsLaws(l: Ledger, w: AccountId, a: AccountData, t: AccountId, b: AccountData)
    requires Laws(l) && w != t && SameFrozen(a, l.Account(w)) && SameFrozen(b, l.Account(t))
    ensures Laws(WriteBoth(l, w, a, t, b).ledger)
  {
    StoreKeepsLaws(l, w, a);
    var l1 := Store(l, w, a).ledger;
    assert Store(l, w, a).Written? ==> l1.Account(t) == l.Account(t);
    if Store(l, w, a).Written? { StoreKeepsLaws(l1, t, b); }
  }

  lemma TryOnceKeepsLaws(l: Ledger, w: AccountId, n: Balance, f: bool, best: Balance)
    requires Laws(l) && best <= n
    ensures Laws(TryOnce(l, w, n, f, best).ledger)
  {
    var (a, t) := Attempt(l, w, f, best);
    StoreKeepsLaws(l, w, a);
    DropsKeepLaws(Store(l, w, a).ledger, t);
  }

  lemma SlashKeepsLaws(l: Ledger, w: AccountId, n: Balance, f: bool)
    requires Laws(l)
    ensures Laws(Slash(l, w, n, f).ledger)
  {
    if n != 0 && l.Account(w).Total() != 0 {
      var first := TryOnce(l, w, n, f, n);
      TryOnceKeepsLaws(l, w, n, f, n);
      if first.result == None { TryOnceKeepsLaws(first.ledger, w, n, f, BestAlive(first.ledger, w, n)); }
    }
  }

  lemma DepositCreatingKeepsLaws(l: Ledger, w: AccountId, n: Balance)
    requires Laws(l)
    ensures Laws(DepositCreating(l, w, n).ledger)
  {
    var a := l.Account(w);
    if a.free + n <= MAX {
      var b := a.(free := a.free + n);
      StoreKeepsLaws(l, w, b);
      DropsKeepLaws(Store(l, w, b).ledger, n);
    } else {
      StoreKeepsLaws(l, w, a);
    }
  }

  lemma DepositIntoExistingKeepsLaws(l: Ledger, w: AccountId, n: Balance)
    requires Laws(l)
    ensures Laws(DepositIntoExisting(l, w, n).ledger)
  {
    var a := l.Account(w);
    if a.free + n <= MAX {
      StoreKeepsLaws(l, w, a.(free := a.free + n));
      DropsKeepLaws(Store(l, w, a.(free := a.free + n)).ledger, n);
    }
  }

  lemma MintKeepsLaws(l: Ledger, w: AccountId, n: Balance)
    requires Laws(l)
    ensures Laws(MintInto(l, w, n).ledger)
  {
    var a := l.Account(w);
    var s := Store(l, w, a.(free := SatAdd(a.free, n))).ledger;
    StoreKeepsLaws(l, w, a.(free := SatAdd(a.free, n)));
    IssuanceIsIrrelevant(s, WrapAdd(s.issuance, n));
  }

  lemma WithdrawKeepsLaws(l: Ledger, w: AccountId, n: Balance, r: set<WithdrawReason>, er: ExistenceRequirement)
    requires Laws(l)
    ensures Laws(Withdraw(l, w, n, r, er).ledger)
  {
    var p := WithdrawClosure(l, w, n, r, er);
    if p.Ok? {
      StoreKeepsLaws(l, w, p.value);
      DropsKeepLaws(Store(l, w, p.value).ledger, n);
    }
  }

  lemma MovesKeepLaws(l: Ledger, w: AccountId, t: AccountId, n: Balance, er: ExistenceRequirement, s: Status)
    requires Laws(l) && w != t
    ensures Laws(Transfer(l, w, t, n, er).ledger)
    ensures Laws(Repatriate(l, w, t, n, s).ledger)
  {
    var p := TransferClosure(l, w, t, n, er);
    if p.Ok? { WriteBothKeepsLaws(l, w, p.value.0, t, p.value.1); }
    var q := RepatriateClosure(l, w, t, n, true, s);
    if q.Ok? { WriteBothKeepsLaws(l, w, q.value.0, t, q.value.1); }
  }

  lemma ReserveKeepsLaws(l: Ledger, w: AccountId, n: Balance)
    requires Laws(l)
    ensures Laws(Reserve(l, w, n).ledger)
  {
    var a := l.Account(w);
    if n <= a.free && a.reserved + n <= MAX {
      StoreKeepsLaws(l, w, a.(free := a.free - n, reserved := a.reserved + n));
    }
  }

  lemma UnreserveKeepsLaws(l: Ledger, w: AccountId, n: Balance)
    requires Laws(l)
    ensures Laws(Unreserve(l, w, n).ledger)
  {
    var a := l.Account(w);
    var actual := Min(a.reserved, n);
    StoreKeepsLaws(l, w, a.(free := SatAdd(a.free, actual), reserved := a.reserved - actual));
  }

  lemma MakeFreeKeepsLaws(l: Ledger, w: AccountId, n: Balance)
    requires Laws(l)
    ensures Laws(MakeFreeBalanceBe(l, w, n).ledger)
  {
    var a := l.Account(w);
    StoreKeepsLaws(l, w, a.(free := n));
    DropsKeepLaws(Store(l, w, a.(free := n)).ledger, if a.free <= n then n - a.free else a.free - n);
  }

  lemma SetBalanceKeepsLaws(l: Ledger, w: AccountId, f: Balance, r: Balance)
    requires Laws(l)
    ensures Laws(SetBalance(l, w, f, r).ledger)
  {
    var a := l.Account(w);
    var wipeout := WrapAdd(f, r) < l.ed;
    var f1, r1 := if wipeout then 0 else f, if wipeout then 0 else r;
    SquareUpIssuance(l, a.free, f1, a.reserved, r1);
    var n := SquareUp(SquareUp(l, a.free, f1), a.reserved, r1);
    IssuanceIsIrrelevant(l, n.issuance);
    StoreKeepsLaws(n, w, a.(free := f1, reserved := r1));
  }

  // ----- lock calls -----

  /** The account as `UpdateLocks` writes it. */
  function Refrozen(a: AccountData, ls: seq<BalanceLock>): AccountData {
    a.(miscFrozen := FrozenBy(ls, Misc), feeFrozen := FrozenBy(ls, Fee))
  }

  lemma UpdateLocksWrites(l: Ledger, w: AccountId, ls: seq<BalanceLock>)
    requires EdLaw(l)
    ensures var n := UpdateLocks(l, w, ls);
            n.accounts == if w in l.accounts || l.ed == 0 then l.accounts[w := Refrozen(l.Account(w), ls)] else l.accounts
    ensures EdLaw(UpdateLocks(l, w, ls))
  {
    HeldIsHoldings(l, w);
    var a := Refrozen(l.Account(w), ls);
    assert Store(l, w, a).ledger.accounts ==
           if w in l.accounts || l.ed == 0 then l.accounts[w := a] else l.accounts;
    assert UpdateLocks(l, w, ls).accounts == Store(l, w, a).ledger.accounts;
  }

  lemma UpdateLocksAt(l: Ledger, w: AccountId, ls: seq<BalanceLock>)
    requires Laws(l) && UniqueIds(ls)
    requires ls == [] || w in l.accounts || l.ed == 0
    ensures LockLawAt(UpdateLocks(l, w, ls), w)
  {
    UpdateLocksWrites(l, w, ls);
    assert LockLawAt(l, w);
  }

  lemma UpdateLocksFrame(l: Ledger, w: AccountId, ls: seq<BalanceLock>, v: AccountId)
    requires v != w
    ensures var n := UpdateLocks(l, w, ls);
            (v in n.locks <==> v in l.locks) && n.LocksOf(v) == l.LocksOf(v) && n.Consumers(v) == l.Consumers(v)
  {
    var s := Store(l, w, Refrozen(l.Account(w), ls)).ledger;
    assert s.locks == l.locks && s.consumers == l.consumers;
    var n := UpdateLocks(l, w, ls);
    assert n.locks == if ls == [] then l.locks - {w} else l.locks[w := ls];
    assert n.consumers - {w} == l.consumers - {w};
  }

  lemma UpdateLocksElsewhere(l: Ledger, w: AccountId, ls: seq<BalanceLock>, v: AccountId)
    requires Laws(l) && v != w
    ensures LockLawAt(UpdateLocks(l, w, ls), v)
  {
    UpdateLocksWrites(l, w, ls);
    UpdateLocksFrame(l, w, ls, v);
    assert LockLawAt(l, v);
  }

  lemma UpdateLocksKeepsLaws(l: Ledger, w: AccountId, ls: seq<BalanceLock>)
    requires Laws(l) && UniqueIds(ls)
    requires ls == [] || w in l.accounts || l.ed == 0
    ensures Laws(UpdateLocks(l, w, ls))
  {
    UpdateLocksWrites(l, w, ls);
    UpdateLocksAt(l, w, ls);
    forall v | v != w ensures LockLawAt(UpdateLocks(l, w, ls), v) { UpdateLocksElsewhere(l, w, ls, v); }
  }

  /** `set_lock` and `extend_lock` keep the cache right if and only if the account
      is alive or there is no existential deposit. */
  lemma SetLockKeepsLaws(l: Ledger, w: AccountId, id: LockId, n: Balance, r: set<WithdrawReason>, x: bool)
    requires Laws(l)
    ensures EdLaw(SetLock(l, w, id, n, r, x))
    ensures LockLaw(SetLock(l, w, id, n, r, x)) <==> Placed(l, SetLockCall(w, id, n, r, x))
  {
    if n != 0 && r != {} {
      var k := BalanceLock(id, n, ToReasons(r));
      var ls := Upsert(l.LocksOf(w), k, x);
      assert LockLawAt(l, w);
      UpsertRefines(l.LocksOf(w), k, x);
      UpdateLocksWrites(l, w, ls);
      if w in l.accounts || l.ed == 0 {
        UpdateLocksKeepsLaws(l, w, ls);
      } else {
        assert !LockLawAt(UpdateLocks(l, w, ls), w);
      }
    }
  }

  lemma RemoveLockKeepsLaws(l: Ledger, w: AccountId, id: LockId)
    requires Laws(l)
    ensures Laws(RemoveLock(l, w, id))
  {
    assert LockLawAt(l, w);
    RemoveRefines(l.LocksOf(w), id);
    UpdateLocksKeepsLaws(l, w, Remove(l.LocksOf(w), id));
  }

  lemma IncConsumersKeepsLaws(l: Ledger, w: AccountId)
    requires Laws(l)
    ensures Laws(IncConsumers(l, w))
  {
    forall v ensures LockLawAt(IncConsumers(l, w), v) { assert LockLawAt(l, v); }
  }

  /** Another pallet gives back a reference of its own, never that of the locks. */
  lemma DecConsumersKeepsLaws(l: Ledger, w: AccountId)
    requires Laws(l) && l.Consumers(w) > (if w in l.locks then 1 else 0)
    ensures Laws(DecConsumers(l, w))
  {
    forall v ensures LockLawAt(DecConsumers(l, w), v) { assert LockLawAt(l, v); }
  }

  // ----- every call and every run -----

  predicate IsLockCall(c: Call) {
    c.SetLockCall? || c.RemoveLockCall? || c.IncConsumersCall? || c.DecConsumersCall?
  }

  predicate IsOneAccount(c: Call) {
    c.DepositCreatingCall? || c.DepositIntoExistingCall? || c.MintIntoCall? || c.WithdrawCall? || c.SlashCall?
  }

  lemma OneAccountKeepsLaws(l: Ledger, c: Call)
    requires Laws(l) && IsOneAccount(c)
    ensures Laws(Perform(l, c).ledger)
  {
    match c
    case DepositCreatingCall(w, n) => DepositCreatingKeepsLaws(l, w, n);
    case DepositIntoExistingCall(w, n) => DepositIntoExistingKeepsLaws(l, w, n);
    case MintIntoCall(w, n) => MintKeepsLaws(l, w, n);
    case WithdrawCall(w, n, r, er) => WithdrawKeepsLaws(l, w, n, r, er);
    case SlashCall(w, n, f) => SlashKeepsLaws(l, w, n, f);
  }

  lemma OtherMoneyKeepsLaws(l: Ledger, c: Call)
    requires Laws(l) && !IsLockCall(c) && !IsOneAccount(c)
    ensures Laws(Perform(l, c).ledger)
  {
    match c
    case IssueCall(n) => IssuanceIsIrrelevant(l, Issue(l, n).ledger.issuance);
    case BurnCall(n) => IssuanceIsIrrelevant(l, Burn(l, n).ledger.issuance);
    case TransferCall(w, t, n, er) => if w != t { MovesKeepLaws(l, w, t, n, er, ToFree); }
    case ReserveCall(w, n) => ReserveKeepsLaws(l, w, n);
    case UnreserveCall(w, n) => UnreserveKeepsLaws(l, w, n);
    case RepatriateCall(w, t, n, s) =>
      if w != t { MovesKeepLaws(l, w, t, n, AllowDeath, s); } else { UnreserveKeepsLaws(l, w, n); }
    case MakeFreeCall(w, n) => MakeFreeKeepsLaws(l, w, n);
    case SetBalanceCall(w, f, r) => SetBalanceKeepsLaws(l, w, f, r);
  }

  /** Every call keeps the laws, except a lock placed on a dead account. */
  lemma CallKeepsLaws(l: Ledger, c: Call)
    requires Laws(l)
    ensures EdLaw(Perform(l, c).ledger)
    ensures LockLaw(Perform(l, c).ledger) <==> Placed(l, c)
  {
    match c
    case SetLockCall(w, id, n, r, x) => SetLockKeepsLaws(l, w, id, n, r, x);
    case RemoveLockCall(w, id) => RemoveLockKeepsLaws(l, w, id);
    case IncConsumersCall(w) => IncConsumersKeepsLaws(l, w);
    case DecConsumersCall(w) => if l.Consumers(w) > (if w in l.locks then 1 else 0) { DecConsumersKeepsLaws(l, w); }
    case _ => if IsOneAccount(c) { OneAccountKeepsLaws(l, c); } else { OtherMoneyKeepsLaws(l, c); }
  }

  lemma StepKeepsLaws(m: Machine, op: Op)
    requires Laws(m.ledger)
    requires op.Do? ==> Placed(m.ledger, op.call)
    ensures Laws(Step(m, op).ledger)
  {
    match op
    case Do(c, _) => CallKeepsLaws(m.ledger, c);
    case Handle(t) =>
      if t.DropPos? && t.i in m.pos { DropsKeepLaws(m.ledger, m.pos[t.i]); }
      if t.DropNeg? && t.i in m.neg { DropsKeepLaws(m.ledger, m.neg[t.i]); }
  }

  /** A run in which every step is exact, no account outgrows the balance type and
      locks are placed on live accounts. */
  ghost predicate Sound(m: Machine, ops: seq<Op>)
    decreases |ops|
  {
    && Fits(m.ledger)
    && (ops != [] ==>
          && Exact(m, ops[0])
          && (ops[0].Do? ==> Placed(m.ledger, ops[0].call))
          && Sound(Step(m, ops[0]), ops[1..]))
  }

  ghost predicate Invariant(m: Machine) { Balanced(m) && Laws(m.ledger) }

  /** The issuance equation, the existential-deposit law and the lock law hold
      after every sound run. */
  lemma {:induction false} RunKeepsInvariant(m: Machine, ops: seq<Op>)
    requires Invariant(m) && Sound(m, ops)
    ensures Invariant(Run(m, ops)) && Fits(Run(m, ops).ledger)
    decreases |ops|
  {
    if ops == [] {
    } else {
      StepKeepsEquation(m, ops[0]);
      StepKeepsLaws(m, ops[0]);
      RunKeepsInvariant(Step(m, ops[0]), ops[1..]);
    }
  }

  /** With no imbalance alive the issuance is the sum of all balances, and every
      account fits. */
  lemma AtRest(m: Machine)
    requires Balanced(m) && m.pos == map[] && m.neg == map[]
    ensures m.ledger.issuance == m.ledger.Supply()
    ensures Fits(m.ledger)
  {
    forall w | w in m.ledger.accounts ensures m.ledger.accounts[w].Holdings() <= MAX {
      SumMapBound(HoldingsOf(m.ledger.accounts), w);
    }
  }

  /** Without an existential deposit nothing dies and nothing is refused: every
      call but `set_balance` is exact. */
  lemma ExactWithoutDeposit(l: Ledger, c: Call)
    requires l.ed == 0 && !c.SetBalanceCall?
    ensures ExactCall(l, c)
  {
  }

  /** With no positive imbalance alive, a write is exact unless a pinned account
      would die. */
  lemma ExactWithoutPositive(m: Machine, w: AccountId, a: AccountData, made: nat)
    requires Balanced(m) && m.pos == map[]
    requires w in m.ledger.accounts && a.Holdings() <= m.ledger.Held(w) && !Refuses(m.ledger, w, a)
    ensures Kept(m.ledger, w, a, made)
  {
    SumMapBound(HoldingsOf(m.ledger.accounts), w);
  }

  // ----- genesis -----

  /** Genesis: each account endowed with at least the existential deposit. */
  ghost function Genesis(ed: Balance, endowed: map<AccountId, Balance>): Machine
    requires SumMap(endowed) <= MAX
  {
    Machine(Ledger(ed, SumMap(endowed), map w | w in endowed :: AccountData(endowed[w], 0, 0, 0), map[], map[]), map[], map[])
  }

  lemma GenesisIsInvariant(ed: Balance, endowed: map<AccountId, Balance>)
    requires SumMap(endowed) <= MAX
    requires forall w :: w in endowed ==> endowed[w] >= ed
    ensures Invariant(Genesis(ed, endowed)) && Fits(Genesis(ed, endowed).ledger)
  {
    var l := Genesis(ed, endowed).ledger;
    assert HoldingsOf(l.accounts) == endowed;
    forall w ensures LockLawAt(l, w) { }
  }

  // ----- the runs are runs of the calls -----

  /** A step of a run performs the call it names, and hands out what it returned. */
  lemma IssuingStepsAreCalls(l: Ledger, w: AccountId, n: Balance, rs: set<WithdrawReason>, er: ExistenceRequirement, f: bool)
    ensures Perform(l, IssueCall(n)) == Effect(Issue(l, n).ledger, None, Some(Issue(l, n).result))
    ensures Perform(l, BurnCall(n)) == Effect(Burn(l, n).ledger, Some(Burn(l, n).result), None)
    ensures var d := DepositCreating(l, w, n); Perform(l, DepositCreatingCall(w, n)) == Effect(d.ledger, Some(d.result), None)
    ensures var d := DepositIntoExisting(l, w, n);
            Perform(l, DepositIntoExistingCall(w, n)) == Effect(d.ledger, if d.result.Ok? then Some(d.result.value) else None, None)
    ensures var d := Withdraw(l, w, n, rs, er);
            Perform(l, WithdrawCall(w, n, rs, er)) == Effect(d.ledger, None, if d.result.Ok? then Some(d.result.value) else None)
    ensures var d := Slash(l, w, n, f); Perform(l, SlashCall(w, n, f)) == Effect(d.ledger, None, Some(d.result.taken))
  {
  }

  lemma MovingStepsAreCalls(l: Ledger, w: AccountId, t: AccountId, n: Balance, er: ExistenceRequirement)
    ensures Perform(l, MintIntoCall(w, n)) == Effect(MintInto(l, w, n).ledger, None, None)
    ensures Perform(l, TransferCall(w, t, n, er)) == Effect(Transfer(l, w, t, n, er).ledger, None, None)
    ensures Perform(l, ReserveCall(w, n)) == Effect(Reserve(l, w, n).ledger, None, None)
    ensures Perform(l, UnreserveCall(w, n)) == Effect(Unreserve(l, w, n).ledger, None, None)
  {
  }

  lemma RepatriateStepIsCall(l: Ledger, w: AccountId, t: AccountId, n: Balance, s: Status)
    ensures Perform(l, RepatriateCall(w, t, n, s)) == Effect(Repatriate(l, w, t, n, s).ledger, None, None)
  {
  }

  lemma ForcingStepsAreCalls(l: Ledger, w: AccountId, n: Balance, r: Balance)
    ensures Perform(l, SetBalanceCall(w, n, r)) == Effect(SetBalance(l, w, n, r).ledger, None, None)
    ensures var d, e := MakeFreeBalanceBe(l, w, n), Perform(l, MakeFreeCall(w, n));
            e.ledger == d.ledger && Amount(if d.result.Positive? then e.pos else e.neg) == d.result.amount
  {
  }

  lemma LockStepsAreCalls(l: Ledger, w: AccountId, id: LockId, n: Balance, rs: set<WithdrawReason>, x: bool)
    ensures Perform(l, SetLockCall(w, id, n, rs, x)) == Effect(SetLock(l, w, id, n, rs, x), None, None)
    ensures Perform(l, RemoveLockCall(w, id)) == Effect(RemoveLock(l, w, id), None, None)
  {
  }
}
