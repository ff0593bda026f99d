/** Charging a transaction fee before dispatch and correcting it afterwards. */
module FeePayment {
  import opened Numbers
  import opened Locks
  import opened Ledgers
  import opened Issuance
  import opened BalancesPallet
  import opened Reachable
  import C = Currency
  import O = Outcomes

  datatype PaymentError = InvalidPayment

  /** Nothing was charged, a negative imbalance is held, or the transaction is invalid. */
  datatype Charge = NoCharge | Charged(paid: Balance) | Refuse(error: PaymentError)

  function FeeReasons(tip: Balance): set<WithdrawReason> {
    if tip == 0 then {TransactionPayment} else {TransactionPayment, ForTip}
  }

  /** `swapped` tells whether buying native currency for the payer went through. */
  function WithdrawFee(l: Ledger, who: AccountId, fee: Balance, tip: Balance, swapped: bool): Done<Charge> {
    if fee == 0 then Done(l, NoCharge)
    else if !swapped then Done(l, Refuse(InvalidPayment))
    else
      var d := C.Withdraw(l, who, fee, FeeReasons(tip), C.MustLive);
      Done(d.ledger, if d.result.Ok? then Charged(d.result.value) else Refuse(InvalidPayment))
  }

  /** What offsetting an imbalance by an opposite one leaves. */
  datatype SameOrOther = Same(amount: Balance) | Other(amount: Balance) | Neither

  function Offset(a: Balance, b: Balance): SameOrOther {
    if a > b then Same(a - b) else if b > a then Other(b - a) else Neither
  }

  /** The two imbalances handed on, the tip first, or an error. */
  datatype Settlement = Nothing | HandedOn(tip: Balance, rest: Balance) | Failed(error: PaymentError)

  function CorrectFee(l: Ledger, who: AccountId, corrected: Balance, tip: Balance, charge: Charge): Done<Settlement> {
    if !charge.Charged? then Done(l, Nothing)
    else
      var d := C.DepositIntoExisting(l, who, SatSub(charge.paid, corrected));
      var refund := if d.result.Ok? then d.result.value else 0;
      match Offset(charge.paid, refund)
      case Other(n) => Done(DropPositive(d.ledger, n), Failed(InvalidPayment))
      case Same(n) => Done(d.ledger, SplitOff(n, tip))
      case Neither => Done(d.ledger, SplitOff(0, tip))
  }

  /** `split`: the first part is at most the tip. */
  function SplitOff(adjusted: Balance, tip: Balance): Settlement {
    var first := Min(adjusted, tip);
    HandedOn(first, adjusted - first)
  }

  /** The excess over the corrected fee, if the payer can still be refunded. */
  function Refund(l: Ledger, who: AccountId, corrected: Balance, paid: Balance): Balance {
    var excess := SatSub(paid, corrected);
    if who in l.accounts && l.Account(who).free + excess <= MAX then excess else 0
  }

  /** A charge takes exactly the fee from the payer's free balance, keeps the
      account alive, and holds all of it as an imbalance. */
  lemma ChargeTakesFee(l: Ledger, who: AccountId, fee: Balance, tip: Balance)
    requires EdLaw(l) && Fits(l) && fee != 0
    ensures var d := WithdrawFee(l, who, fee, tip, true);
            if d.result.Charged? then
              && d.result.paid == fee
              && who in d.ledger.accounts
              && d.ledger == Put(l, who, l.Account(who).(free := l.Account(who).free - fee))
              && d.ledger.Gap() + fee == l.Gap()
            else d.ledger == l
  {
    var p := C.WithdrawClosure(l, who, fee, FeeReasons(tip), C.MustLive);
    HeldIsHoldings(l, who);
    if p.Ok? { StoreAlive(l, who, p.value); }
  }

  /** A lock stops the payment of fees; with a tip, every lock does. */
  predicate StopsFee(k: BalanceLock, tip: Balance) { k.reasons == Fee || k.reasons == All || tip != 0 }

  /** A fee is charged if and only if the swap went through, the payer has it, stays alive, and keeps what
      every lock that stops it demands. */
  lemma ChargeOutcome(l: Ledger, who: AccountId, fee: Balance, tip: Balance, swapped: bool)
    requires Laws(l) && Fits(l) && fee != 0
    ensures WithdrawFee(l, who, fee, tip, swapped).result.Charged? <==>
            && swapped
            && fee <= l.Account(who).free && l.Held(who) - fee >= l.ed
            && forall k :: k in l.LocksOf(who) && StopsFee(k, tip) ==> k.amount <= l.Account(who).free - fee
    ensures WithdrawFee(l, who, fee, tip, swapped).result != NoCharge
  {
    var a := l.Account(who);
    O.WithdrawOutcome(l, who, fee, FeeReasons(tip), C.MustLive);
    if fee <= a.free {
      O.FrozenIsLocked(l, who, FeeReasons(tip), a.free - fee);
      assert TransactionPayment in FeeReasons(tip);
      assert tip != 0 ==> ForTip in FeeReasons(tip);
      assert forall k: BalanceLock :: O.Bars(k, FeeReasons(tip)) <==> StopsFee(k, tip);
    }
  }

  /** The deposit of a refund: what is refunded arrives, and the gap shows it. */
  lemma RefundDeposits(l: Ledger, who: AccountId, corrected: Balance, paid: Balance)
    requires EdLaw(l)
    ensures var d := C.DepositIntoExisting(l, who, SatSub(paid, corrected));
            var refund := Refund(l, who, corrected, paid);
            && refund == (if d.result.Ok? then d.result.value else 0)
            && d.ledger.Account(who).free == l.Account(who).free + refund
            && d.ledger.Gap() == l.Gap() + refund
  {
    DepositIntoExistingSquares(l, who, SatSub(paid, corrected));
  }

  /** Offsetting what was paid by a refund of no more leaves the net cost to split. */
  lemma CorrectFeeSplits(l: Ledger, who: AccountId, corrected: Balance, tip: Balance, paid: Balance, refund: Balance)
    requires var d := C.DepositIntoExisting(l, who, SatSub(paid, corrected));
             refund == if d.result.Ok? then d.result.value else 0
    requires refund <= paid
    ensures CorrectFee(l, who, corrected, tip, Charged(paid)) ==
            Done(C.DepositIntoExisting(l, who, SatSub(paid, corrected)).ledger, SplitOff(paid - refund, tip))
  {
  }

  /** Correction never fails. The refund goes back to the payer, the two imbalances
      handed on add up to the net cost with the tip first, and the issuance
      equation is kept. */
  lemma CorrectionConserves(l: Ledger, who: AccountId, corrected: Balance, tip: Balance, paid: Balance)
    requires EdLaw(l)
    ensures var d := CorrectFee(l, who, corrected, tip, Charged(paid));
            var net := paid - Refund(l, who, corrected, paid);
            && d.result.HandedOn?
            && d.result.tip + d.result.rest == net
            && d.result.tip == Min(net, tip)
            && d.ledger.Account(who).free == l.Account(who).free + Refund(l, who, corrected, paid)
            && d.ledger.Gap() + d.result.tip + d.result.rest == l.Gap() + paid
  {
    RefundDeposits(l, who, corrected, paid);
    CorrectFeeSplits(l, who, corrected, tip, paid, Refund(l, who, corrected, paid));
  }

  /** After a charge the payer can always be refunded. */
  lemma ChargedIsRefundable(l: Ledger, who: AccountId, fee: Balance, tip: Balance, corrected: Balance)
    requires EdLaw(l) && Fits(l) && WithdrawFee(l, who, fee, tip, true).result.Charged?
    ensures var c := WithdrawFee(l, who, fee, tip, true).ledger;
            EdLaw(c) && Refund(c, who, corrected, fee) == SatSub(fee, corrected)
  {
    ChargeTakesFee(l, who, fee, tip);
  }

  /** Charge, dispatch, correct: with the payer's account left alone in between,
      the net cost is the smaller of the charged and the corrected fee. */
  lemma FeeRoundTrip(l: Ledger, who: AccountId, fee: Balance, tip: Balance, corrected: Balance)
    requires EdLaw(l) && Fits(l) && WithdrawFee(l, who, fee, tip, true).result.Charged?
    ensures var c := WithdrawFee(l, who, fee, tip, true);
            var d := CorrectFee(c.ledger, who, corrected, tip, c.result);
            && d.result.HandedOn?
            && l.Account(who).free - d.ledger.Account(who).free == Min(fee, corrected)
            && d.result.tip + d.result.rest == Min(fee, corrected)
            && d.result.tip == Min(Min(fee, corrected), tip)
            && d.ledger.Gap() + d.result.tip + d.result.rest == l.Gap()
  {
    ChargeTakesFee(l, who, fee, tip);
    var c := WithdrawFee(l, who, fee, tip, true).ledger;
    ChargedIsRefundable(l, who, fee, tip, corrected);
    CorrectionConserves(c, who, corrected, tip, fee);
  }

  // ----- the adapter -----

  method ChargeFee(p: Pallet, who: AccountId, fee: Balance, tip: Balance, swapped: bool) returns (c: Charge)
    modifies p
    ensures Done(p.State(), c) == WithdrawFee(old(p.State()), who, fee, tip, swapped)
  {
    if fee == 0 { return NoCharge; }
    var reasons := {TransactionPayment};
    if tip != 0 { reasons := {TransactionPayment, ForTip}; }
    if !swapped { return Refuse(InvalidPayment); }
    var r := p.Withdraw(who, fee, reasons, C.MustLive);
    c := if r.Ok? then Charged(r.value) else Refuse(InvalidPayment);
  }

  method CorrectAndDepositFee(p: Pallet, who: AccountId, corrected: Balance, tip: Balance, charge: Charge)
    returns (s: Settlement)
    modifies p
    ensures Done(p.State(), s) == CorrectFee(old(p.State()), who, corrected, tip, charge)
  {
    if !charge.Charged? { return Nothing; }
    var refundAmount := SatSub(charge.paid, corrected);
    var r := p.DepositIntoExisting(who, refundAmount);
    var refund := 0;
    if r.Ok? { refund := r.value; }
    var adjusted := 0;
    match Offset(charge.paid, refund) {
      case Other(_) => assert false;  // the refund never exceeds what was paid
      case Same(n) => adjusted := n;
      case Neither =>
    }
    var first := Min(adjusted, tip);
    return HandedOn(first, adjusted - first);
  }
}
