/** What the single calls of the balances pallet promise their callers. */
module Guarantees {
  import opened Numbers
  import opened Sums
  import opened Locks
  import opened Ledgers
  import opened Currency
  import opened Issuance
  import opened Reachable

  /** Only the accounts in `ws` and the issuance may differ. */
  ghost predicate OnlyTouches(l: Ledger, n: Ledger, ws: set<AccountId>) {
    && n.ed == l.ed && n.locks == l.locks && n.consumers == l.consumers
    && n.accounts - ws == l.accounts - ws
  }

  // ----- transfer -----

  /** Two nested writes that go through. */
  lemma BothWritten(l: Ledger, w: AccountId, a: AccountData, t: AccountId, b: AccountData)
    requires w != t && WriteBoth(l, w, a, t, b).result.Ok? && b.Holdings() >= l.ed
    ensures var n := WriteBoth(l, w, a, t, b).ledger;
            && OnlyTouches(l, n, {w, t})
            && t in n.accounts && n.accounts[t] == b
            && (if a.Holdings() >= l.ed then w in n.accounts && n.accounts[w] == a else w !in n.accounts)
  {
    var l1 := Store(l, w, a).ledger;
    assert l1.accounts - {w} == l.accounts - {w};
    var l2 := Store(l1, t, b).ledger;
    assert l2.accounts - {w, t} == l.accounts - {w, t};
  }

  /** All or nothing. On success exactly `value` moves, only the dust of a source
      that dies leaves the issuance, and the store is never asked for a write it
      refuses. */
  lemma TransferAllOrNothing(l: Ledger, source: AccountId, dest: AccountId, value: Balance, er: ExistenceRequirement)
    requires value != 0 && source != dest
    ensures var d := Transfer(l, source, dest, value, er);
            var left := l.Held(source) - value;
            match d.result
            case Err(e) => d.ledger == l && e != ConsumerRemaining
            case Ok(_) =>
              && OnlyTouches(l, d.ledger, {source, dest})
              && l.Account(source).free >= value
              && d.ledger.Held(dest) == l.Held(dest) + value
              && d.ledger.Account(dest) == l.Account(dest).(free := l.Account(dest).free + value)
              && (if left >= l.ed
                  then d.ledger.Account(source) == l.Account(source).(free := l.Account(source).free - value)
                       && d.ledger.issuance == l.issuance
                  else source !in d.ledger.accounts && !l.Pinned(source) && er == AllowDeath
                       && d.ledger.issuance == SatSub(l.issuance, left))
  {
    HeldIsHoldings(l, source);
    HeldIsHoldings(l, dest);
    var p := TransferClosure(l, source, dest, value, er);
    if p.Ok? {
      assert !Refuses(l, source, p.value.0);
      BothWritten(l, source, p.value.0, dest, p.value.1);
    }
  }

  // ----- slashing -----

  /** What a slash may reach. */
  function Available(l: Ledger, who: AccountId, fromFree: bool): nat {
    if fromFree then l.Held(who) else l.Account(who).reserved
  }

  /** The store will refuse the full slash. */
  predicate WouldKillPinned(l: Ledger, who: AccountId, value: Balance, fromFree: bool) {
    l.Pinned(who) && l.Held(who) - Min(value, Available(l, who, fromFree)) < l.ed
  }

  /** What a slash ends up taking. */
  function SlashTakes(l: Ledger, who: AccountId, value: Balance, fromFree: bool): int {
    var all := Min(value, Available(l, who, fromFree));
    if WouldKillPinned(l, who, value, fromFree) then Min(all, l.Held(who) - l.ed) else all
  }

  lemma AttemptAmount(l: Ledger, who: AccountId, fromFree: bool, best: Balance)
    requires Fits(l)
    ensures Attempt(l, who, fromFree, best).1 == Min(best, Available(l, who, fromFree))
  {
    HeldIsHoldings(l, who);
  }

  /** The first attempt goes through. */
  lemma SlashAtOnce(l: Ledger, who: AccountId, value: Balance, fromFree: bool)
    requires Fits(l) && who in l.accounts && value != 0 && l.Held(who) != 0
    requires !Refuses(l, who, Attempt(l, who, fromFree, value).0)
    ensures var d := Slash(l, who, value, fromFree);
            && d.result.taken == Min(value, Available(l, who, fromFree))
            && d.result.taken + d.result.left == value
            && OnlyTouches(l, d.ledger, {who})
            && (if l.Held(who) - d.result.taken >= l.ed
                then d.ledger.Held(who) == l.Held(who) - d.result.taken && who in d.ledger.accounts
                else who !in d.ledger.accounts && !l.Pinned(who))
  {
    AttemptAmount(l, who, fromFree, value);
    AttemptTakes(l, who, fromFree, value);
  }

  /** The store refuses and the second attempt goes through. */
  lemma SlashSecondTime(l: Ledger, who: AccountId, value: Balance, fromFree: bool)
    requires EdLaw(l) && Fits(l) && who in l.accounts && value != 0 && l.Held(who) != 0
    requires Refuses(l, who, Attempt(l, who, fromFree, value).0)
    ensures var d := Slash(l, who, value, fromFree);
            && d.result.taken == Min(Min(value, l.Held(who) - l.ed), Available(l, who, fromFree))
            && d.result.taken + d.result.left == value
            && OnlyTouches(l, d.ledger, {who})
            && who in d.ledger.accounts
            && d.ledger.Held(who) == l.Held(who) - d.result.taken >= l.ed
  {
    var (a0, t0) := Attempt(l, who, fromFree, value);
    var l1 := DropNegative(Store(l, who, a0).ledger, t0);
    var best := BestAlive(l1, who, value);
    AttemptAmount(l1, who, fromFree, best);
    AttemptTakes(l1, who, fromFree, best);
    SecondAttemptSurvives(l1, who, value, fromFree);
    assert Slash(l, who, value, fromFree).ledger == Put(l1, who, Attempt(l1, who, fromFree, best).0);
  }

  /** The price of a refusal: the imbalances of the first attempt take all that the
      account held off the issuance, although the account keeps it. */
  lemma RefusedSlashCost(l: Ledger, who: AccountId, value: Balance, fromFree: bool)
    requires EdLaw(l) && Fits(l) && who in l.accounts && value != 0 && l.Held(who) != 0
    requires Refuses(l, who, Attempt(l, who, fromFree, value).0)
    ensures Slash(l, who, value, fromFree).ledger.issuance == SatSub(l.issuance, l.Held(who))
  {
    AttemptTakes(l, who, fromFree, value);
    var l1 := TryOnce(l, who, value, fromFree, value).ledger;
    SecondAttemptSurvives(l1, who, value, fromFree);
  }

  /** Neither slash falls out of its two attempts: what is taken and what is left
      add up to the value, an account that may die loses all it has up to the
      value, and a pinned one that would die keeps the existential deposit. */
  lemma SlashOutcome(l: Ledger, who: AccountId, value: Balance, fromFree: bool)
    requires EdLaw(l) && Fits(l) && who in l.accounts && value != 0 && l.Held(who) != 0
    ensures var d := Slash(l, who, value, fromFree);
            && d.result.taken == SlashTakes(l, who, value, fromFree)
            && d.result.taken + d.result.left == value
            && OnlyTouches(l, d.ledger, {who})
            && (who in d.ledger.accounts ==> d.ledger.Held(who) == l.Held(who) - d.result.taken >= l.ed)
            && (l.Pinned(who) ==> who in d.ledger.accounts)
  {
    AttemptAmount(l, who, fromFree, value);
    AttemptTakes(l, who, fromFree, value);
    if Refuses(l, who, Attempt(l, who, fromFree, value).0) {
      SlashSecondTime(l, who, value, fromFree);
    } else {
      SlashAtOnce(l, who, value, fromFree);
    }
  }

  /** A missing or empty account, or a zero value, is left alone. */
  lemma SlashOfNothing(l: Ledger, who: AccountId, value: Balance, fromFree: bool)
    requires value == 0 || l.Account(who).Total() == 0
    ensures Slash(l, who, value, fromFree) == Done(l, Slashed(0, value))
  {
  }

  /** `slash` touches reserved balance only once the free balance is gone. */
  lemma SlashFreeFirst(l: Ledger, who: AccountId, value: Balance)
    requires EdLaw(l) && Fits(l)
    ensures var n := Slash(l, who, value, true).ledger;
            who in n.accounts && n.Account(who).reserved < l.Account(who).reserved ==> n.Account(who).free == 0
  {
    if value != 0 && l.Account(who).Total() != 0 && who in l.accounts {
      var (a0, t0) := Attempt(l, who, true, value);
      if Refuses(l, who, a0) {
        var l1 := DropNegative(Store(l, who, a0).ledger, t0);
        SecondAttemptSurvives(l1, who, value, true);
      }
    }
  }

  // ----- locks -----

  /** In a state that obeys the laws, a successful transfer leaves `free` at or
      above every lock that overlaps its reason. */
  lemma TransferRespectsLocks(l: Ledger, source: AccountId, dest: AccountId, value: Balance, er: ExistenceRequirement, k: BalanceLock)
    requires Laws(l) && value != 0 && source != dest
    requires Transfer(l, source, dest, value, er).result.Ok?
    requires k in l.LocksOf(source) && k.reasons.Overlaps(Misc)
    ensures Transfer(l, source, dest, value, er).ledger.Account(source).free >= k.amount
  {
    assert LockLawAt(l, source);
    OverlapIsFrozen(l.LocksOf(source), k, Misc);
    TransferAllOrNothing(l, source, dest, value, er);
    HeldIsHoldings(l, source);
  }

  lemma WithdrawRespectsLocks(l: Ledger, who: AccountId, value: Balance, rs: set<WithdrawReason>, er: ExistenceRequirement, k: BalanceLock)
    requires Laws(l) && value != 0
    requires Withdraw(l, who, value, rs, er).result.Ok?
    requires k in l.LocksOf(who) && k.reasons.Overlaps(ToReasons(rs))
    ensures Withdraw(l, who, value, rs, er).ledger.Account(who).free >= k.amount
  {
    assert LockLawAt(l, who);
    OverlapIsFrozen(l.LocksOf(who), k, ToReasons(rs));
  }

  lemma ReserveRespectsLocks(l: Ledger, who: AccountId, value: Balance, k: BalanceLock)
    requires Laws(l) && value != 0
    requires Reserve(l, who, value).result.Ok?
    requires k in l.LocksOf(who) && k.reasons.Overlaps(Misc)
    ensures Reserve(l, who, value).ledger.Account(who).free >= k.amount
  {
    assert LockLawAt(l, who);
    OverlapIsFrozen(l.LocksOf(who), k, Misc);
  }

  /** `extend_lock` never lowers what is frozen for any reason. */
  lemma ExtendLockGrows(l: Ledger, w: AccountId, id: LockId, n: Balance, rs: set<WithdrawReason>, r: Reasons)
    requires Laws(l)
    ensures l.Account(w).Frozen(r) <= SetLock(l, w, id, n, rs, true).Account(w).Frozen(r)
  {
    if w in l.accounts {
      var k := BalanceLock(id, n, ToReasons(rs));
      assert LockLawAt(l, w);
      UpdateLocksWrites(l, w, Upsert(l.LocksOf(w), k, true));
      ExtendNeverLowers(l.LocksOf(w), k, Misc);
      ExtendNeverLowers(l.LocksOf(w), k, Fee);
    }
  }

  /** Storing the list that is already there, with its amounts cached or the account
      dead, changes nothing. */
  lemma UpdateAgain(l: Ledger, w: AccountId, ls: seq<BalanceLock>)
    requires ls != [] && w in l.locks && l.locks[w] == ls
    requires if w in l.accounts then l.accounts[w].Total() >= l.ed && CachedFor(l.accounts[w], ls) else l.ed > 0
    ensures UpdateLocks(l, w, ls) == l
  {
    assert l.locks[w := ls] == l.locks;
    if w in l.accounts {
      assert Refrozen(l.Account(w), ls) == l.accounts[w];
      assert l.accounts[w := l.accounts[w]] == l.accounts;
    } else {
      assert l.accounts - {w} == l.accounts;
    }
  }

  /** Storing the same list again changes nothing. */
  lemma UpdateTwice(l: Ledger, w: AccountId, ls: seq<BalanceLock>)
    requires EdLaw(l) && ls != []
    ensures UpdateLocks(l, w, ls).LocksOf(w) == ls
    ensures UpdateLocks(UpdateLocks(l, w, ls), w, ls) == UpdateLocks(l, w, ls)
  {
    HeldIsHoldings(l, w);
    var e := UpdateLocks(l, w, ls);
    assert e.locks[w] == ls && e.ed == l.ed;
    UpdateAgain(e, w, ls);
  }

  /** Extending a lock twice is extending it once, of any account, live or dead. */
  lemma ExtendLockIdempotent(l: Ledger, w: AccountId, id: LockId, n: Balance, rs: set<WithdrawReason>)
    requires EdLaw(l)
    ensures var e := SetLock(l, w, id, n, rs, true); SetLock(e, w, id, n, rs, true) == e
  {
    if n != 0 && rs != {} {
      var k := BalanceLock(id, n, ToReasons(rs));
      var ls := Upsert(l.LocksOf(w), k, true);
      ExtendIdempotent(l.LocksOf(w), k);
      UpdateTwice(l, w, ls);
    }
  }

  // ----- reducible balance -----

  /** `reducible_balance` is the exact threshold of `can_withdraw`. */
  lemma ReducibleIsThreshold(m: Machine, who: AccountId, amount: Balance)
    requires Balanced(m) && m.pos == map[] && Fits(m.ledger) && amount != 0
    ensures amount <= ReducibleBalance(m.ledger, who, true) <==> CanWithdraw(m.ledger, who, amount) == Success
    ensures amount <= ReducibleBalance(m.ledger, who, false) <==>
            CanWithdraw(m.ledger, who, amount).Success? || CanWithdraw(m.ledger, who, amount).ReducedToZero?
  {
    var l := m.ledger;
    if who in l.accounts {
      SumMapBound(HoldingsOf(l.accounts), who);
      assert l.Account(who).Total() == l.Account(who).Holdings();
    }
  }

  // ----- repatriation -----

  /** Between distinct accounts exactly the reported amount changes hands. */
  lemma RepatriateMovesExactly(l: Ledger, slashed: AccountId, beneficiary: AccountId, value: Balance, status: Status)
    requires EdLaw(l) && slashed != beneficiary && value != 0
    requires Repatriate(l, slashed, beneficiary, value, status).result.Ok?
    ensures var d := Repatriate(l, slashed, beneficiary, value, status);
            var moved := Min(l.Account(slashed).reserved, value);
            && d.result.value == value - moved
            && OnlyTouches(l, d.ledger, {slashed, beneficiary})
            && d.ledger.Held(beneficiary) == l.Held(beneficiary) + moved
            && (if l.Held(slashed) - moved >= l.ed
                then d.ledger.Held(slashed) == l.Held(slashed) - moved
                else slashed !in d.ledger.accounts)
  {
    HeldIsHoldings(l, slashed);
    var p := RepatriateClosure(l, slashed, beneficiary, value, true, status).value;
    BothWritten(l, slashed, p.0, beneficiary, p.1);
  }
}
