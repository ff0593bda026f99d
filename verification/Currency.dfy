/** What each call of the balances pallet does to the ledger. Imbalances that a
    closure has built before the account store refuses are dropped with it. */
module Currency {
  import opened Numbers
  import opened Locks
  import opened Ledgers

  datatype ExistenceRequirement = AllowDeath | MustLive

  datatype Status = ToFree | ToReserved

  // ----- issuance -----

  /** Returns the negative imbalance created. */
  function Issue(l: Ledger, amount: Balance): Done<Balance> {
    var a := if l.issuance + amount <= MAX then amount else MAX - l.issuance;
    Done(l.(issuance := l.issuance + a), a)
  }

  /** Returns the positive imbalance created. */
  function Burn(l: Ledger, amount: Balance): Done<Balance> {
    var a := Min(amount, l.issuance);
    Done(l.(issuance := l.issuance - a), a)
  }

  // ----- consequences -----

  datatype DepositConsequence = CanDeposit | DepositOverflow | DepositBelowMinimum

  function DepositOutcome(l: Ledger, amount: Balance, a: AccountData): DepositConsequence {
    if amount == 0 then CanDeposit
    else if l.issuance + amount > MAX || a.Total() + amount > MAX then DepositOverflow
    else if a.Total() + amount < l.ed then DepositBelowMinimum
    else CanDeposit
  }

  datatype WithdrawConsequence =
    Success | Underflow | NoFunds | ReducedToZero(dust: Balance) | WouldDie | FrozenFunds

  function CanWithdraw(l: Ledger, who: AccountId, amount: Balance): WithdrawConsequence {
    var a := l.Account(who);
    if amount == 0 then Success
    else if l.issuance < amount then Underflow
    else if a.Total() < amount then NoFunds
    else if a.Total() - amount < l.ed && l.Pinned(who) then WouldDie
    else if a.free < amount then NoFunds
    else if a.free - amount < a.Frozen(All) then FrozenFunds
    else if a.Total() - amount < l.ed then ReducedToZero(a.Total() - amount)
    else Success
  }

  function ReducibleBalance(l: Ledger, who: AccountId, keepAlive: bool): Balance {
    var a := l.Account(who);
    var liquid := SatSub(a.free, a.Frozen(All));
    if !l.Pinned(who) && !keepAlive then liquid
    else SatSub(liquid, SatSub(l.ed, a.Total() - liquid))
  }

  // ----- free balance -----

  predicate EnsureCanWithdraw(l: Ledger, who: AccountId, amount: Balance, reasons: set<WithdrawReason>, left: Balance) {
    amount == 0 || left >= l.Account(who).Frozen(ToReasons(reasons))
  }

  /** The two accounts a transfer is about to write, source first. */
  function TransferClosure(l: Ledger, source: AccountId, dest: AccountId, value: Balance, er: ExistenceRequirement)
    : Result<(AccountData, AccountData)>
  {
    var src, dst := l.Account(source), l.Account(dest);
    if src.free < value then Err(InsufficientBalance)
    else if dst.free + value > MAX then Err(Overflow)
    else
      var src', dst' := src.(free := src.free - value), dst.(free := dst.free + value);
      if dst'.Total() < l.ed then Err(ExistentialDeposit)
      else if !EnsureCanWithdraw(l, source, value, {ForTransfer}, src'.free) then Err(LiquidityRestrictions)
      else if (er == MustLive || l.Pinned(source)) && src'.Total() < l.ed then Err(KeepAlive)
      else Ok((src', dst'))
  }

  function Transfer(l: Ledger, source: AccountId, dest: AccountId, value: Balance, er: ExistenceRequirement)
    : Done<Result<()>>
  {
    if value == 0 || source == dest then Done(l, Ok(()))
    else match TransferClosure(l, source, dest, value, er)
         case Err(e) => Done(l, Err(e))
         case Ok(p) => WriteBoth(l, source, p.0, dest, p.1)
  }

  /** Nested mutations: the inner account is written first. */
  function WriteBoth(l: Ledger, inner: AccountId, a: AccountData, outer: AccountId, b: AccountData): Done<Result<()>> {
    match Store(l, inner, a)
    case Refused(l1) => Done(l1, Err(ConsumerRemaining))
    case Written(l1) =>
      match Store(l1, outer, b)
      case Refused(l2) => Done(l2, Err(ConsumerRemaining))
      case Written(l2) => Done(l2, Ok(()))
  }

  /** The account a withdrawal is about to write. */
  function WithdrawClosure(l: Ledger, who: AccountId, value: Balance, reasons: set<WithdrawReason>, liveness: ExistenceRequirement)
    : Result<AccountData>
  {
    var a := l.Account(who);
    if a.free < value then Err(InsufficientBalance)
    else
      var left := a.free - value;
      var wouldKill := WrapAdd(left, a.reserved) < l.ed && WrapAdd(a.free, a.reserved) >= l.ed;
      if liveness == MustLive && wouldKill then Err(KeepAlive)
      else if !EnsureCanWithdraw(l, who, value, reasons, left) then Err(LiquidityRestrictions)
      else Ok(a.(free := left))
  }

  /** Returns the negative imbalance created. */
  function Withdraw(l: Ledger, who: AccountId, value: Balance, reasons: set<WithdrawReason>, liveness: ExistenceRequirement)
    : Done<Result<Balance>>
  {
    if value == 0 then Done(l, Ok(0))
    else match WithdrawClosure(l, who, value, reasons, liveness)
         case Err(e) => Done(l, Err(e))
         case Ok(a) =>
           match Store(l, who, a)
           case Written(n) => Done(n, Ok(value))
           case Refused(n) => Done(DropNegative(n, value), Err(ConsumerRemaining))
  }

  /** Returns the positive imbalance created. */
  function DepositIntoExisting(l: Ledger, who: AccountId, value: Balance): Done<Result<Balance>> {
    var a := l.Account(who);
    if value == 0 then Done(l, Ok(0))
    else if who !in l.accounts then Done(l, Err(DeadAccount))
    else if a.free + value > MAX then Done(l, Err(Overflow))
    else match Store(l, who, a.(free := a.free + value))
         case Written(n) => Done(n, Ok(value))
         case Refused(n) => Done(DropPositive(n, value), Err(ConsumerRemaining))
  }

  /** Returns the positive imbalance created, zero if nothing could be deposited. */
  function DepositCreating(l: Ledger, who: AccountId, value: Balance): Done<Balance> {
    var a := l.Account(who);
    if value == 0 || (value < l.ed && who !in l.accounts) then Done(l, 0)
    else if a.free + value > MAX then Done(Store(l, who, a).ledger, 0)
    else match Store(l, who, a.(free := a.free + value))
         case Written(n) => Done(n, value)
         case Refused(n) => Done(DropPositive(n, value), 0)
  }

  function MintInto(l: Ledger, who: AccountId, amount: Balance): Done<Result<()>> {
    var a := l.Account(who);
    if amount == 0 then Done(l, Ok(()))
    else match DepositOutcome(l, amount, a)
         case DepositOverflow => Done(l, Err(Overflow))
         case DepositBelowMinimum => Done(l, Err(BelowMinimum))
         case CanDeposit =>
           match Store(l, who, a.(free := SatAdd(a.free, amount)))
           case Refused(n) => Done(n, Err(ConsumerRemaining))
           case Written(n) => Done(n.(issuance := WrapAdd(n.issuance, amount)), Ok(()))
  }

  datatype SignedImbalance = Positive(amount: Balance) | Negative(amount: Balance)

  function MakeFreeBalanceBe(l: Ledger, who: AccountId, value: Balance): Done<SignedImbalance> {
    var a := l.Account(who);
    if SatAdd(value, a.reserved) < l.ed && who !in l.accounts then Done(l, Positive(0))
    else
      var made := if a.free <= value then Positive(value - a.free) else Negative(a.free - value);
      match Store(l, who, a.(free := value))
      case Written(n) => Done(n, made)
      case Refused(n) =>
        Done(if made.Positive? then DropPositive(n, made.amount) else DropNegative(n, made.amount), Positive(0))
  }

  /** The imbalance between an old and a new amount, dropped at once. */
  function SquareUp(l: Ledger, was: Balance, becomes: Balance): Ledger {
    if becomes > was then DropPositive(l, becomes - was) else DropNegative(l, was - becomes)
  }

  function SetBalance(l: Ledger, who: AccountId, free: Balance, reserved: Balance): Done<Result<()>> {
    var wipeout := WrapAdd(free, reserved) < l.ed;
    var f, r := if wipeout then 0 else free, if wipeout then 0 else reserved;
    var a := l.Account(who);
    match Store(SquareUp(SquareUp(l, a.free, f), a.reserved, r), who, a.(free := f, reserved := r))
    case Written(n) => Done(n, Ok(()))
    case Refused(n) => Done(n, Err(ConsumerRemaining))
  }

  // ----- slashing -----

  /** The negative imbalance created, and what could not be slashed. */
  datatype Slashed = Slashed(taken: Balance, left: Balance)

  /** Free balance first, then reserved. */
  function TakeFromBoth(a: AccountData, best: Balance): AccountData {
    var f := Min(a.free, best);
    a.(free := a.free - f, reserved := a.reserved - Min(a.reserved, best - f))
  }

  function TakeFromReserved(a: AccountData, best: Balance): AccountData {
    a.(reserved := a.reserved - Min(a.reserved, best))
  }

  function Attempt(l: Ledger, who: AccountId, fromFree: bool, best: Balance): (AccountData, Balance) {
    var a := l.Account(who);
    var a' := if fromFree then TakeFromBoth(a, best) else TakeFromReserved(a, best);
    (a', a.Holdings() - a'.Holdings())
  }

  /** All that may be taken while the account keeps the existential deposit. */
  function BestAlive(l: Ledger, who: AccountId, value: Balance): Balance {
    var a := l.Account(who);
    Min(value, SatSub(WrapAdd(a.free, a.reserved), l.ed))
  }

  /** One attempt: what was slashed, or nothing if the store refuses; the imbalance
      made for a refused attempt is dropped. */
  function TryOnce(l: Ledger, who: AccountId, value: Balance, fromFree: bool, best: Balance): Done<Option<Slashed>>
    requires best <= value
  {
    var (a, t) := Attempt(l, who, fromFree, best);
    match Store(l, who, a)
    case Written(n) => Done(n, Some(Slashed(t, value - t)))
    case Refused(n) => Done(DropNegative(n, t), None)
  }

  /** `slash` (from free, then reserved) and `slash_reserved`: a first attempt at
      the full value and, if the store refuses, a second one that leaves the
      existential deposit. */
  function Slash(l: Ledger, who: AccountId, value: Balance, fromFree: bool): Done<Slashed> {
    if value == 0 then Done(l, Slashed(0, 0))
    else if l.Account(who).Total() == 0 then Done(l, Slashed(0, value))
    else
      var first := TryOnce(l, who, value, fromFree, value);
      if first.result.Some? then Done(first.ledger, first.result.value)
      else
        var second := TryOnce(first.ledger, who, value, fromFree, BestAlive(first.ledger, who, value));
        Done(second.ledger, if second.result.Some? then second.result.value else Slashed(0, value))
  }

  // ----- reserved balance -----

  function Reserve(l: Ledger, who: AccountId, value: Balance): Done<Result<()>> {
    var a := l.Account(who);
    if value == 0 then Done(l, Ok(()))
    else if a.free < value then Done(l, Err(InsufficientBalance))
    else if a.reserved + value > MAX then Done(l, Err(Overflow))
    else if !EnsureCanWithdraw(l, who, value, {ForReserve}, a.free - value) then Done(l, Err(LiquidityRestrictions))
    else match Store(l, who, a.(free := a.free - value, reserved := a.reserved + value))
         case Written(n) => Done(n, Ok(()))
         case Refused(n) => Done(n, Err(ConsumerRemaining))
  }

  /** Returns what could not be unreserved. */
  function Unreserve(l: Ledger, who: AccountId, value: Balance): Done<Balance> {
    var a := l.Account(who);
    if value == 0 then Done(l, 0)
    else if a.Total() == 0 then Done(l, value)
    else
      var actual := Min(a.reserved, value);
      match Store(l, who, a.(free := SatAdd(a.free, actual), reserved := a.reserved - actual))
      case Written(n) => Done(n, value - actual)
      case Refused(n) => Done(n, value)
  }

  /** The two accounts a repatriation is about to write, the slashed one first. */
  function RepatriateClosure(l: Ledger, slashed: AccountId, beneficiary: AccountId, value: Balance, bestEffort: bool, status: Status)
    : Result<(AccountData, AccountData)>
  {
    var src, dst := l.Account(slashed), l.Account(beneficiary);
    var actual := Min(src.reserved, value);
    if beneficiary !in l.accounts then Err(DeadAccount)
    else if !bestEffort && actual != value then Err(InsufficientBalance)
    else if (if status == ToFree then dst.free else dst.reserved) + actual > MAX then Err(Overflow)
    else Ok((src.(reserved := src.reserved - actual),
             if status == ToFree then dst.(free := dst.free + actual) else dst.(reserved := dst.reserved + actual)))
  }

  /** `do_transfer_reserved`. Between an account and itself the value returned for
      free status is what could not be unreserved. */
  function TransferReserved(l: Ledger, slashed: AccountId, beneficiary: AccountId, value: Balance, bestEffort: bool, status: Status)
    : Done<Result<Balance>>
  {
    if value == 0 then Done(l, Ok(0))
    else if slashed == beneficiary then
      if status == ToFree then var d := Unreserve(l, slashed, value); Done(d.ledger, Ok(d.result))
      else Done(l, Ok(SatSub(value, l.Account(slashed).reserved)))
    else match RepatriateClosure(l, slashed, beneficiary, value, bestEffort, status)
         case Err(e) => Done(l, Err(e))
         case Ok(p) =>
           var d := WriteBoth(l, slashed, p.0, beneficiary, p.1);
           Done(d.ledger, if d.result.Ok? then Ok(Min(l.Account(slashed).reserved, value)) else Err(d.result.error))
  }

  /** Returns what could not be moved. */
  function Repatriate(l: Ledger, slashed: AccountId, beneficiary: AccountId, value: Balance, status: Status)
    : Done<Result<Balance>>
  {
    var d := TransferReserved(l, slashed, beneficiary, value, true, status);
    Done(d.ledger, if d.result.Ok? then Ok(SatSub(value, d.result.value)) else d.result)
  }

  // ----- locks -----

  function IncConsumers(l: Ledger, who: AccountId): Ledger {
    if who in l.accounts then l.(consumers := l.consumers[who := l.Consumers(who) + 1]) else l
  }

  function DecConsumers(l: Ledger, who: AccountId): Ledger {
    if l.Consumers(who) > 0 then l.(consumers := l.consumers[who := l.Consumers(who) - 1]) else l
  }

  /** Store the lock list of an account and cache what it freezes. */
  function UpdateLocks(l: Ledger, who: AccountId, ls: seq<BalanceLock>): Ledger {
    var a := l.Account(who).(miscFrozen := FrozenBy(ls, Misc), feeFrozen := FrozenBy(ls, Fee));
    var n := Store(l, who, a).ledger;
    if ls == [] then
      var m := n.(locks := n.locks - {who});
      if who in l.locks then DecConsumers(m, who) else m
    else
      var m := n.(locks := n.locks[who := ls]);
      if who in l.locks then m else IncConsumers(m, who)
  }

  /** `set_lock` and, with `extend`, `extend_lock`. */
  function SetLock(l: Ledger, who: AccountId, id: LockId, amount: Balance, reasons: set<WithdrawReason>, extend: bool): Ledger {
    if amount == 0 || reasons == {} then l
    else UpdateLocks(l, who, Upsert(l.LocksOf(who), BalanceLock(id, amount, ToReasons(reasons)), extend))
  }

  function RemoveLock(l: Ledger, who: AccountId, id: LockId): Ledger {
    UpdateLocks(l, who, Remove(l.LocksOf(who), id))
  }
}
