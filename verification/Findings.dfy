/** Concrete inputs on which a property one would expect of the balances pallet
    fails, next to the exact conditions proved elsewhere. */
module Findings {
  import opened Locks
  import opened Ledgers
  import opened Currency
  import opened Issuance
  import opened Guarantees

  /** One account, pinned, holding 15 with an existential deposit of 10. Slashing it
      by 10 is refused at first; the imbalances of the refused attempt take the
      whole 15 off the issuance, then 5 are really slashed. */
  lemma RefusedSlashLosesIssuance(l: Ledger)
    requires l.ed == 10 && l.issuance == 15 && l.accounts.Keys == {7} && l.Pinned(7)
    requires l.accounts[7].free == 15 && l.accounts[7].reserved == 0
    ensures var d := Slash(l, 7, 10, true);
            d.result == Slashed(5, 5) && d.ledger.Held(7) == 10 && d.ledger.issuance == 0
    ensures !ExactCall(l, SlashCall(7, 10, true))
  {
    AttemptTakes(l, 7, true, 10);
    AttemptAmount(l, 7, true, 10);
    assert l.Held(7) == 15 && l.Pinned(7);
    SlashSecondTime(l, 7, 10, true);
    RefusedSlashCost(l, 7, 10, true);
  }

  /** Existential deposit 1, nobody there yet, and a rich account 2. */
  function DeadTarget(): Ledger {
    Ledger(1, 100, map[2 := AccountData(100, 0, 0, 0)], map[], map[])
  }

  /** A lock of 50 on a dead account is stored but not cached: once the account is
      funded, it can spend below its lock. */
  lemma LockOnDeadAccountIsNotEnforced()
    ensures var l1 := SetLock(DeadTarget(), 1, 0, 50, {ForTransfer}, false);
            var l2 := Transfer(l1, 2, 1, 60, AllowDeath).ledger;
            var d := Transfer(l2, 1, 2, 40, AllowDeath);
            d.result == Ok(()) && d.ledger.Account(1).free == 20
            && d.ledger.LocksOf(1) == [BalanceLock(0, 50, Misc)]
  {
    var l := DeadTarget();
    var k := BalanceLock(0, 50, ToReasons({ForTransfer}));
    assert ToReasons({ForTransfer}) == Misc by { assert ForTransfer in {ForTransfer}; }
    assert Upsert([], k, false) == [k];
    var l1 := SetLock(l, 1, 0, 50, {ForTransfer}, false);
    assert l1.accounts == l.accounts && l1.locks == map[1 := [k]] && l1.consumers == map[] && l1.ed == 1;
    var l2 := Transfer(l1, 2, 1, 60, AllowDeath).ledger;
    assert l2.Account(1) == AccountData(60, 0, 0, 0) && l2.Account(2) == AccountData(40, 0, 0, 0);
    assert l2.locks == l1.locks && l2.consumers == l1.consumers;
  }
}
