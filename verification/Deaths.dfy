/** How accounts die: what a call leaves below the existential deposit goes with the
    account and leaves the issuance. */
module Deaths {
  import opened Numbers
  import opened Locks
  import opened Ledgers
  import opened Currency
  import opened Issuance
  import opened Guarantees

  predicate Died(l: Ledger, n: Ledger, w: AccountId) { w in l.accounts && w !in n.accounts }

  /** The account was not pinned, and exactly `left` went off the issuance. */
  predicate DiedLeaving(l: Ledger, n: Ledger, w: AccountId, left: int) {
    !l.Pinned(w) && 0 <= left && n.issuance == SatSub(l.issuance, left)
  }

  /** What the destination of a call gained. */
  function Gained(l: Ledger, n: Ledger, c: Call): int {
    if (c.TransferCall? || c.RepatriateCall?) && c.dest != c.who then n.Held(c.dest) - l.Held(c.dest) else 0
  }

  /** What the account held, less what was withdrawn or moved elsewhere, plus what
      was put in. */
  function Leftover(l: Ledger, c: Call, w: AccountId): int {
    var e := Perform(l, c);
    l.Held(w) + Amount(e.pos) - Amount(e.neg) - Gained(l, e.ledger, c)
  }

  // ----- one write -----

  lemma StoreDeath(l: Ledger, w: AccountId, a: AccountData, v: AccountId)
    requires Died(l, Store(l, w, a).ledger, v)
    ensures v == w && a.Total() < l.ed && Store(l, w, a).Written?
    ensures DiedLeaving(l, Store(l, w, a).ledger, w, a.Total())
  {
  }

  lemma WithdrawDeath(l: Ledger, c: Call, w: AccountId)
    requires c.WithdrawCall? && EdLaw(l) && Fits(l) && Died(l, Perform(l, c).ledger, w)
    ensures c.who == w && Leftover(l, c, w) < l.ed && DiedLeaving(l, Perform(l, c).ledger, w, Leftover(l, c, w))
  {
    HeldIsHoldings(l, c.who);
    var a := WithdrawClosure(l, c.who, c.amount, c.reasons, c.er).value;
    StoreDeath(l, c.who, a, w);
  }

  lemma MakeFreeDeath(l: Ledger, c: Call, w: AccountId)
    requires c.MakeFreeCall? && EdLaw(l) && Fits(l) && Died(l, Perform(l, c).ledger, w)
    ensures c.who == w && Leftover(l, c, w) < l.ed && DiedLeaving(l, Perform(l, c).ledger, w, Leftover(l, c, w))
  {
    HeldIsHoldings(l, c.who);
    StoreDeath(l, c.who, l.Account(c.who).(free := c.amount), w);
  }

  /** Wiping an account out takes all it held. */
  lemma SetBalanceDeath(l: Ledger, c: Call, w: AccountId)
    requires c.SetBalanceCall? && EdLaw(l) && Fits(l) && Died(l, Perform(l, c).ledger, w)
    ensures c.who == w && DiedLeaving(l, Perform(l, c).ledger, w, Leftover(l, c, w))
  {
    HeldIsHoldings(l, c.who);
    var wipeout := WrapAdd(c.amount, c.reserved) < l.ed;
    var f, r := if wipeout then 0 else c.amount, if wipeout then 0 else c.reserved;
    var a := l.Account(c.who);
    StoreDeath(SquareUp(SquareUp(l, a.free, f), a.reserved, r), c.who, a.(free := f, reserved := r), w);
  }

  lemma TransferDeath(l: Ledger, c: Call, w: AccountId)
    requires c.TransferCall? && EdLaw(l) && Fits(l) && Died(l, Perform(l, c).ledger, w)
    ensures c.who == w && Leftover(l, c, w) < l.ed && DiedLeaving(l, Perform(l, c).ledger, w, Leftover(l, c, w))
  {
    TransferAllOrNothing(l, c.who, c.dest, c.amount, c.er);
  }

  /** Of two nested writes only the inner one kills, if the outer account survives. */
  lemma WriteBothDeath(l: Ledger, w: AccountId, a: AccountData, t: AccountId, b: AccountData, v: AccountId)
    requires w != t && b.Total() >= l.ed && Died(l, WriteBoth(l, w, a, t, b).ledger, v)
    ensures v == w && a.Total() < l.ed && DiedLeaving(l, WriteBoth(l, w, a, t, b).ledger, w, a.Total())
    ensures WriteBoth(l, w, a, t, b).ledger.Held(t) == b.Holdings()
  {
    var l1 := Store(l, w, a).ledger;
    assert Died(l, l1, v);
    StoreDeath(l, w, a, v);
  }

  lemma RepatriateDeath(l: Ledger, c: Call, w: AccountId)
    requires c.RepatriateCall? && EdLaw(l) && Fits(l) && c.who != c.dest && Died(l, Perform(l, c).ledger, w)
    ensures c.who == w && Leftover(l, c, w) < l.ed && DiedLeaving(l, Perform(l, c).ledger, w, Leftover(l, c, w))
  {
    var p := RepatriateClosure(l, c.who, c.dest, c.amount, true, c.status).value;
    HeldIsHoldings(l, c.who);
    HeldIsHoldings(l, c.dest);
    WriteBothDeath(l, c.who, p.0, c.dest, p.1, w);
  }

  lemma RefusedSlashKillsNobody(l: Ledger, w: AccountId, n: Balance, f: bool, v: AccountId)
    requires EdLaw(l) && Fits(l) && n != 0 && v in l.accounts && Refuses(l, w, Attempt(l, w, f, n).0)
    ensures v in Slash(l, w, n, f).ledger.accounts
  {
    if l.Held(w) != 0 {
      SlashSecondTime(l, w, n, f);
      if v != w { assert v in l.accounts - {w}; }
    }
  }

  lemma AcceptedSlashDeath(l: Ledger, w: AccountId, n: Balance, f: bool, v: AccountId)
    requires EdLaw(l) && Fits(l) && !Refuses(l, w, Attempt(l, w, f, n).0) && Died(l, Slash(l, w, n, f).ledger, v)
    ensures var left := l.Held(w) - Slash(l, w, n, f).result.taken;
            v == w && left < l.ed && DiedLeaving(l, Slash(l, w, n, f).ledger, w, left)
  {
    var (a, t) := Attempt(l, w, f, n);
    AttemptTakes(l, w, f, n);
    StoreDeath(l, w, a, v);
  }

  lemma SlashDeath(l: Ledger, c: Call, w: AccountId)
    requires c.SlashCall? && EdLaw(l) && Fits(l) && Died(l, Perform(l, c).ledger, w)
    ensures c.who == w && Leftover(l, c, w) < l.ed && DiedLeaving(l, Perform(l, c).ledger, w, Leftover(l, c, w))
  {
    if c.amount != 0 && Refuses(l, c.who, Attempt(l, c.who, c.fromFree, c.amount).0) {
      RefusedSlashKillsNobody(l, c.who, c.amount, c.fromFree, w);
    } else if c.amount != 0 {
      AcceptedSlashDeath(l, c.who, c.amount, c.fromFree, w);
    }
  }

  // ----- calls that kill nobody -----

  lemma Survives(l: Ledger, w: AccountId, a: AccountData, v: AccountId)
    requires v in l.accounts && (w in l.accounts ==> a.Total() >= l.ed)
    ensures v in Store(l, w, a).ledger.accounts
  {
  }

  lemma UnreserveKillsNobody(l: Ledger, w: AccountId, n: Balance, v: AccountId)
    requires EdLaw(l) && Fits(l) && v in l.accounts
    ensures v in Unreserve(l, w, n).ledger.accounts
  {
    HeldIsHoldings(l, w);
    var a := l.Account(w);
    var actual := Min(a.reserved, n);
    Survives(l, w, a.(free := SatAdd(a.free, actual), reserved := a.reserved - actual), v);
  }

  lemma LocksKillNobody(l: Ledger, w: AccountId, ls: seq<BalanceLock>, v: AccountId)
    requires EdLaw(l) && v in l.accounts
    ensures v in UpdateLocks(l, w, ls).accounts
  {
    HeldIsHoldings(l, w);
    Survives(l, w, l.Account(w).(miscFrozen := FrozenBy(ls, Misc), feeFrozen := FrozenBy(ls, Fee)), v);
  }

  lemma LockCallsKillNobody(l: Ledger, c: Call, v: AccountId)
    requires EdLaw(l) && v in l.accounts && (c.SetLockCall? || c.RemoveLockCall?)
    ensures v in Perform(l, c).ledger.accounts
  {
    if c.SetLockCall? {
      LocksKillNobody(l, c.who, Upsert(l.LocksOf(c.who), BalanceLock(c.id, c.amount, ToReasons(c.reasons)), c.extend), v);
    } else {
      LocksKillNobody(l, c.who, Remove(l.LocksOf(c.who), c.id), v);
    }
  }

  lemma DepositsKillNobody(l: Ledger, w: AccountId, n: Balance, v: AccountId)
    requires EdLaw(l) && v in l.accounts
    ensures v in DepositCreating(l, w, n).ledger.accounts
    ensures v in DepositIntoExisting(l, w, n).ledger.accounts
    ensures v in MintInto(l, w, n).ledger.accounts
  {
    HeldIsHoldings(l, w);
    var a := l.Account(w);
    Survives(l, w, a, v);
    if a.free + n <= MAX { Survives(l, w, a.(free := a.free + n), v); }
  }

  lemma ReserveKillsNobody(l: Ledger, w: AccountId, n: Balance, v: AccountId)
    requires EdLaw(l) && v in l.accounts
    ensures v in Reserve(l, w, n).ledger.accounts
  {
    HeldIsHoldings(l, w);
    var a := l.Account(w);
    if n <= a.free && a.reserved + n <= MAX { Survives(l, w, a.(free := a.free - n, reserved := a.reserved + n), v); }
  }

  /** The calls that can kill an account. */
  predicate MayKill(c: Call) {
    || c.WithdrawCall? || c.TransferCall? || c.SlashCall? || c.MakeFreeCall? || c.SetBalanceCall?
    || (c.RepatriateCall? && c.who != c.dest)
  }

  lemma OthersKillNobody(l: Ledger, c: Call, v: AccountId)
    requires EdLaw(l) && Fits(l) && v in l.accounts && !MayKill(c)
    ensures v in Perform(l, c).ledger.accounts
  {
    match c
    case DepositCreatingCall(w, n) => DepositsKillNobody(l, w, n, v);
    case DepositIntoExistingCall(w, n) => DepositsKillNobody(l, w, n, v);
    case MintIntoCall(w, n) => DepositsKillNobody(l, w, n, v);
    case ReserveCall(w, n) => ReserveKillsNobody(l, w, n, v);
    case UnreserveCall(w, n) => UnreserveKillsNobody(l, w, n, v);
    case RepatriateCall(w, _, n, _) => UnreserveKillsNobody(l, w, n, v);
    case SetLockCall(_, _, _, _, _) => LockCallsKillNobody(l, c, v);
    case RemoveLockCall(_, _) => LockCallsKillNobody(l, c, v);
    case _ =>
  }

  // ----- every call -----

  /** An account that a call leaves dead is the one the call is about, and is not
      pinned. Exactly its leftover goes off the issuance, which is less than the
      existential deposit unless the account is wiped out by `set_balance`. */
  lemma DeathTakesLeftover(l: Ledger, c: Call, w: AccountId)
    requires EdLaw(l) && Fits(l) && Died(l, Perform(l, c).ledger, w)
    ensures MayKill(c) && c.who == w
    ensures DiedLeaving(l, Perform(l, c).ledger, w, Leftover(l, c, w))
    ensures Leftover(l, c, w) < l.ed || c.SetBalanceCall?
  {
    if !MayKill(c) { OthersKillNobody(l, c, w); }
    match c
    case WithdrawCall(_, _, _, _) => WithdrawDeath(l, c, w);
    case TransferCall(_, _, _, _) => TransferDeath(l, c, w);
    case SlashCall(_, _, _) => SlashDeath(l, c, w);
    case RepatriateCall(_, _, _, _) => RepatriateDeath(l, c, w);
    case MakeFreeCall(_, _) => MakeFreeDeath(l, c, w);
    case SetBalanceCall(_, _, _) => SetBalanceDeath(l, c, w);
  }
}
