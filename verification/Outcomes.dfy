/** What each call leaves behind, field by field, and exactly when it succeeds, in
    terms of the balances before it. */
module Outcomes {
  import opened Numbers
  import opened Locks
  import opened Ledgers
  import opened Currency
  import opened Issuance
  import opened Reachable
  import opened Guarantees

  // ----- accounts and what may be taken from them -----

  /** The accounts with the two balances of one of them replaced: it is removed if
      they are below the existential deposit. */
  function Holding(l: Ledger, w: AccountId, free: Balance, reserved: Balance): map<AccountId, AccountData> {
    if free + reserved >= l.ed then l.accounts[w := AccountData(free, reserved, l.Account(w).miscFrozen, l.Account(w).feeFrozen)]
    else l.accounts - {w}
  }

  /** What goes off the issuance with an account of these balances. */
  function Dust(l: Ledger, free: Balance, reserved: Balance): nat {
    if free + reserved >= l.ed then 0 else free + reserved
  }

  /** The account survives with these balances, or may die. */
  predicate MayHold(l: Ledger, w: AccountId, free: Balance, reserved: Balance) {
    free + reserved >= l.ed || !l.Pinned(w)
  }

  /** What is frozen allows `left` to remain after a withdrawal for the given reasons:
      paying transaction fees respects one amount, anything else the other. */
  predicate Unfrozen(a: AccountData, rs: set<WithdrawReason>, left: int) {
    && (TransactionPayment in rs ==> left >= a.feeFrozen)
    && (rs != {TransactionPayment} ==> left >= a.miscFrozen)
  }

  lemma FrozenFor(a: AccountData, rs: set<WithdrawReason>, left: Balance)
    ensures left >= a.Frozen(ToReasons(rs)) <==> Unfrozen(a, rs, left)
  {
  }

  /** A lock bars withdrawals for the given reasons. */
  predicate Bars(k: BalanceLock, rs: set<WithdrawReason>) {
    match k.reasons
    case All => true
    case Fee => TransactionPayment in rs
    case Misc => rs != {TransactionPayment}
  }

  predicate LocksAllow(l: Ledger, w: AccountId, rs: set<WithdrawReason>, left: int) {
    forall k :: k in l.LocksOf(w) && Bars(k, rs) ==> k.amount <= left
  }

  /** In a lawful state what is frozen is exactly what the listed locks bar. */
  lemma FrozenIsLocked(l: Ledger, w: AccountId, rs: set<WithdrawReason>, left: nat)
    requires Laws(l)
    ensures Unfrozen(l.Account(w), rs, left) <==> LocksAllow(l, w, rs, left)
  {
    assert LockLawAt(l, w);
    FrozenByIsMaximum(l.LocksOf(w), Misc);
    FrozenByIsMaximum(l.LocksOf(w), Fee);
  }

  // ----- issuance -----

  /** `issue` and `burn` change the issuance by as much of the amount as fits, and
      return exactly that. */
  lemma IssueOutcome(l: Ledger, n: Balance)
    ensures Issue(l, n) == Done(l.(issuance := Min(l.issuance + n, MAX)), Min(n, MAX - l.issuance))
    ensures Burn(l, n) == Done(l.(issuance := Max(l.issuance - n, 0)), Min(n, l.issuance))
  {
  }

  // ----- free balance -----

  /** Calls for nothing, and transfers to oneself, succeed and change nothing. */
  lemma ZeroIsNothing(l: Ledger, w: AccountId, t: AccountId, n: Balance, rs: set<WithdrawReason>, er: ExistenceRequirement, s: Status)
    ensures Transfer(l, w, w, n, er) == Transfer(l, w, t, 0, er) == Done(l, Ok(()))
    ensures Withdraw(l, w, 0, rs, er) == DepositIntoExisting(l, w, 0) == Repatriate(l, w, t, 0, s) == Done(l, Ok(0))
    ensures MintInto(l, w, 0) == Reserve(l, w, 0) == Done(l, Ok(()))
    ensures DepositCreating(l, w, 0) == Unreserve(l, w, 0) == Done(l, 0)
  {
  }

  lemma TransferOutcome(l: Ledger, source: AccountId, dest: AccountId, n: Balance, er: ExistenceRequirement)
    requires EdLaw(l) && Fits(l) && n != 0 && source != dest
    ensures var src, dst := l.Account(source), l.Account(dest);
            Transfer(l, source, dest, n, er).result.Ok? <==>
            && n <= src.free && src.free - n >= src.miscFrozen
            && dst.free + n <= MAX && l.Held(dest) + n >= l.ed
            && (l.Held(source) - n >= l.ed || (er == AllowDeath && !l.Pinned(source)))
  {
    HeldIsHoldings(l, source);
    HeldIsHoldings(l, dest);
    var p := TransferClosure(l, source, dest, n, er);
    if p.Ok? { TransferExact(l, source, dest, n, er); }
  }

  lemma WithdrawOutcome(l: Ledger, w: AccountId, n: Balance, rs: set<WithdrawReason>, er: ExistenceRequirement)
    requires EdLaw(l) && Fits(l) && n != 0
    ensures var a := l.Account(w);
            var d := Withdraw(l, w, n, rs, er);
            && (d.result.Ok? <==>
                && n <= a.free && Unfrozen(a, rs, a.free - n)
                && (l.Held(w) - n >= l.ed || (er == AllowDeath && !l.Pinned(w))))
            && (d.result.Ok? ==>
                && d.result.value == n
                && d.ledger == l.(accounts := Holding(l, w, a.free - n, a.reserved),
                                  issuance := SatSub(l.issuance, Dust(l, a.free - n, a.reserved))))
            && (d.result.Err? ==> d.ledger == l.(issuance := d.ledger.issuance))
  {
    HeldIsHoldings(l, w);
    var a := l.Account(w);
    if n <= a.free { FrozenFor(a, rs, a.free - n); }
  }

  /** Every reason there is. */
  const EVERY_REASON := {TransactionPayment, ForTransfer, ForReserve, ForFee, ForTip}

  /** `can_withdraw` announces exactly what a withdrawal for every reason does, while
      the issuance covers it: it succeeds, keeping the account or not. */
  lemma ConsequenceAgrees(l: Ledger, w: AccountId, n: Balance)
    requires EdLaw(l) && Fits(l) && n != 0
    ensures CanWithdraw(l, w, n).Success? <==> n <= l.issuance && Withdraw(l, w, n, EVERY_REASON, MustLive).result.Ok?
    ensures CanWithdraw(l, w, n).Success? || CanWithdraw(l, w, n).ReducedToZero? <==>
            n <= l.issuance && Withdraw(l, w, n, EVERY_REASON, AllowDeath).result.Ok?
    ensures CanWithdraw(l, w, n).ReducedToZero? ==> CanWithdraw(l, w, n).dust == l.Held(w) - n
  {
    HeldIsHoldings(l, w);
    WithdrawOutcome(l, w, n, EVERY_REASON, MustLive);
    WithdrawOutcome(l, w, n, EVERY_REASON, AllowDeath);
  }

  lemma DepositIntoExistingOutcome(l: Ledger, w: AccountId, n: Balance)
    requires EdLaw(l) && n != 0
    ensures var a := l.Account(w);
            var d := DepositIntoExisting(l, w, n);
            if w in l.accounts && a.free + n <= MAX
            then d == Done(l.(accounts := l.accounts[w := a.(free := a.free + n)]), Ok(n))
            else d.ledger == l && d.result.Err?
  {
    HeldIsHoldings(l, w);
  }

  lemma DepositCreatingOutcome(l: Ledger, w: AccountId, n: Balance)
    requires EdLaw(l) && n != 0
    ensures var a := l.Account(w);
            var d := DepositCreating(l, w, n);
            if (w in l.accounts || n >= l.ed) && a.free + n <= MAX
            then d == Done(l.(accounts := l.accounts[w := a.(free := a.free + n)]), n)
            else d == Done(l, 0)
  {
    HeldIsHoldings(l, w);
    assert w in l.accounts ==> l.accounts[w := l.accounts[w]] == l.accounts;
  }

  lemma MintOutcome(l: Ledger, w: AccountId, n: Balance)
    requires EdLaw(l) && Fits(l) && n != 0
    ensures var a := l.Account(w);
            var d := MintInto(l, w, n);
            if l.issuance + n <= MAX && l.Held(w) + n <= MAX && l.Held(w) + n >= l.ed
            then d == Done(l.(accounts := l.accounts[w := a.(free := a.free + n)], issuance := l.issuance + n), Ok(()))
            else d.ledger == l && d.result.Err?
  {
    HeldIsHoldings(l, w);
  }

  lemma MakeFreeOutcome(l: Ledger, w: AccountId, n: Balance)
    requires EdLaw(l)
    ensures var a := l.Account(w);
            var d := MakeFreeBalanceBe(l, w, n);
            if w !in l.accounts && n < l.ed then d == Done(l, Positive(0))
            else if MayHold(l, w, n, a.reserved) || w !in l.accounts then
              && d.ledger == l.(accounts := Holding(l, w, n, a.reserved),
                                issuance := SatSub(l.issuance, Dust(l, n, a.reserved)))
              && d.result == if n >= a.free then Positive(n - a.free) else Negative(a.free - n)
            else d.ledger == l.(issuance := d.ledger.issuance) && d.result == Positive(0)
  {
    HeldIsHoldings(l, w);
  }

  lemma SetBalanceOutcome(l: Ledger, w: AccountId, f: Balance, r: Balance)
    requires EdLaw(l)
    ensures var d := SetBalance(l, w, f, r);
            var dies := (if f + r <= MAX then f + r else f + r - MAX - 1) < l.ed;
            && (d.result.Ok? <==> !dies || w !in l.accounts || !l.Pinned(w))
            && d.ledger == l.(accounts := d.ledger.accounts, issuance := d.ledger.issuance)
            && d.ledger.accounts ==
               (if !dies then l.accounts[w := l.Account(w).(free := f, reserved := r)]
                else if d.result.Ok? then l.accounts - {w}
                else l.accounts)
  {
    HeldIsHoldings(l, w);
  }

  // ----- reserved balance -----

  lemma ReserveOutcome(l: Ledger, w: AccountId, n: Balance)
    requires EdLaw(l) && n != 0
    ensures var a := l.Account(w);
            var d := Reserve(l, w, n);
            if n <= a.free && a.reserved + n <= MAX && a.free - n >= a.miscFrozen
            then d == Done(l.(accounts := l.accounts[w := a.(free := a.free - n, reserved := a.reserved + n)]), Ok(()))
            else d.ledger == l && d.result.Err?
  {
    HeldIsHoldings(l, w);
  }

  lemma UnreserveOutcome(l: Ledger, w: AccountId, n: Balance)
    requires EdLaw(l) && Fits(l)
    ensures var a := l.Account(w);
            var moved := Min(a.reserved, n);
            var d := Unreserve(l, w, n);
            && d.result == n - moved
            && d.ledger == if w in l.accounts
                           then l.(accounts := l.accounts[w := a.(free := a.free + moved, reserved := a.reserved - moved)])
                           else l
  {
    HeldIsHoldings(l, w);
    assert w in l.accounts ==> l.accounts[w := l.accounts[w]] == l.accounts;
  }

  /** Between an account and itself the reserve is freed or left alone, and the value
      returned is what was moved, not what could not be. */
  lemma SelfRepatriateOutcome(l: Ledger, w: AccountId, n: Balance, s: Status)
    requires EdLaw(l) && Fits(l) && n != 0
    ensures var d := Repatriate(l, w, w, n, s);
            && d.result == Ok(Min(l.Account(w).reserved, n))
            && d.ledger == if s == ToFree then Unreserve(l, w, n).ledger else l
  {
    UnreserveOutcome(l, w, n);
  }

  /** Two nested writes, of which the outer account survives. */
  lemma WriteBothOutcome(l: Ledger, w: AccountId, a: AccountData, t: AccountId, b: AccountData)
    requires w != t && b.Total() >= l.ed
    ensures var d := WriteBoth(l, w, a, t, b);
            && (d.result.Ok? <==> !Refuses(l, w, a))
            && (d.result.Ok? && a.Total() >= l.ed ==> d.ledger == l.(accounts := l.accounts[w := a][t := b]))
            && (d.result.Ok? && a.Total() < l.ed ==>
                d.ledger == l.(accounts := (l.accounts - {w})[t := b], issuance := SatSub(l.issuance, a.Total())))
            && (d.result.Err? ==> d.ledger == l.(issuance := d.ledger.issuance))
  {
    assert Store(l, w, a).Written? ==> Store(Store(l, w, a).ledger, t, b).Written?;
  }

  /** The account a repatriation credits. */
  function Credited(dst: AccountData, moved: Balance, s: Status): AccountData
    requires (if s == ToFree then dst.free else dst.reserved) + moved <= MAX
  {
    if s == ToFree then dst.(free := dst.free + moved) else dst.(reserved := dst.reserved + moved)
  }

  /** Between distinct accounts: the amount leaves one reserve and arrives in the
      other's free or reserved balance. */
  lemma RepatriateOutcome(l: Ledger, w: AccountId, t: AccountId, n: Balance, s: Status)
    requires EdLaw(l) && Fits(l) && n != 0 && w != t
    ensures var src, dst := l.Account(w), l.Account(t);
            var moved := Min(src.reserved, n);
            var d := Repatriate(l, w, t, n, s);
            && (d.result.Ok? <==>
                && t in l.accounts && (if s == ToFree then dst.free else dst.reserved) + moved <= MAX
                && (w !in l.accounts || MayHold(l, w, src.free, src.reserved - moved)))
            && (d.result.Ok? ==>
                && d.result.value == n - moved
                && d.ledger == l.(accounts := Holding(l, w, src.free, src.reserved - moved)[t := Credited(dst, moved, s)],
                                  issuance := SatSub(l.issuance, Dust(l, src.free, src.reserved - moved))))
            && (d.result.Err? ==> d.ledger == l.(issuance := d.ledger.issuance))
  {
    HeldIsHoldings(l, w);
    HeldIsHoldings(l, t);
    var p := RepatriateClosure(l, w, t, n, true, s);
    if p.Ok? { WriteBothOutcome(l, w, p.value.0, t, p.value.1); }
  }

  // ----- slashing -----

  /** What a slash takes from free balance. */
  function FromFree(a: AccountData, fromFree: bool, taken: Balance): Balance {
    if fromFree then Min(a.free, taken) else 0
  }

  /** An account after `taken` was slashed: `slash` takes from free balance and then
      from reserved, `slash_reserved` from reserved only; what is frozen stays so. */
  predicate Slashes(a: AccountData, b: AccountData, fromFree: bool, taken: Balance) {
    && b.free == a.free - FromFree(a, fromFree, taken)
    && b.reserved == a.reserved - (taken - FromFree(a, fromFree, taken))
    && SameFrozen(a, b)
  }

  lemma AttemptSlashes(l: Ledger, w: AccountId, fromFree: bool, best: Balance)
    ensures var (a, taken) := Attempt(l, w, fromFree, best); Slashes(l.Account(w), a, fromFree, taken)
  {
  }

  lemma AcceptedSlashFields(l: Ledger, w: AccountId, n: Balance, fromFree: bool)
    requires n != 0 && l.Account(w).Total() != 0 && !Refuses(l, w, Attempt(l, w, fromFree, n).0)
    ensures var d := Slash(l, w, n, fromFree);
            w in d.ledger.accounts ==> Slashes(l.Account(w), d.ledger.accounts[w], fromFree, d.result.taken)
  {
    AttemptSlashes(l, w, fromFree, n);
  }

  lemma RefusedSlashFields(l: Ledger, w: AccountId, n: Balance, fromFree: bool)
    requires EdLaw(l) && Fits(l) && n != 0 && l.Account(w).Total() != 0 && Refuses(l, w, Attempt(l, w, fromFree, n).0)
    ensures var d := Slash(l, w, n, fromFree);
            w in d.ledger.accounts ==> Slashes(l.Account(w), d.ledger.accounts[w], fromFree, d.result.taken)
  {
    var l1 := TryOnce(l, w, n, fromFree, n).ledger;
    assert l1.accounts == l.accounts && l1.ed == l.ed;
    SecondAttemptSurvives(l1, w, n, fromFree);
    AttemptSlashes(l1, w, fromFree, BestAlive(l1, w, n));
  }

  /** Where a slash takes from, in either attempt. */
  lemma SlashFields(l: Ledger, w: AccountId, n: Balance, fromFree: bool)
    requires EdLaw(l) && Fits(l)
    ensures var d := Slash(l, w, n, fromFree);
            w in d.ledger.accounts ==> Slashes(l.Account(w), d.ledger.accounts[w], fromFree, d.result.taken)
  {
    if n != 0 && l.Account(w).Total() != 0 {
      if Refuses(l, w, Attempt(l, w, fromFree, n).0) {
        RefusedSlashFields(l, w, n, fromFree);
      } else {
        AcceptedSlashFields(l, w, n, fromFree);
      }
    }
  }

  // ----- locks and references -----

  /** Extending a lock keeps the larger amount and bars what either barred. */
  lemma ExtendJoins(x: BalanceLock, k: BalanceLock, rs: set<WithdrawReason>)
    ensures var y := x.Extend(k);
            && y.id == x.id && y.amount == Max(x.amount, k.amount)
            && (Bars(y, rs) <==> Bars(x, rs) || Bars(k, rs))
  {
  }

  /** The first lock takes a consumer reference of a live account, the last one to go
      gives it back, and nothing in between does either. */
  lemma ReferencesFollowLocks(l: Ledger, w: AccountId, ls: seq<BalanceLock>)
    requires EdLaw(l) && (w in l.locks ==> l.Consumers(w) > 0)
    ensures var n := UpdateLocks(l, w, ls);
            n.Consumers(w) ==
            if ls == [] then l.Consumers(w) - (if w in l.locks then 1 else 0)
            else l.Consumers(w) + (if w !in l.locks && (w in l.accounts || l.ed == 0) then 1 else 0)
    ensures UpdateLocks(l, w, ls).LocksOf(w) == ls
    ensures forall v :: v != w ==> UpdateLocks(l, w, ls).Consumers(v) == l.Consumers(v)
  {
    UpdateLocksWrites(l, w, ls);
    forall v | v != w ensures UpdateLocks(l, w, ls).Consumers(v) == l.Consumers(v) { UpdateLocksFrame(l, w, ls, v); }
  }
}
