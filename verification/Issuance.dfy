/** The issuance equation over every run of the pallet:
    `TotalIssuance` + live positive imbalances = all balances + live negative imbalances. */
module Issuance {
  import opened Numbers
  import opened Sums
  import opened Locks
  import opened Ledgers
  import opened Currency

  // ----- the state machine -----

  datatype Call =
    | IssueCall(amount: Balance)
    | BurnCall(amount: Balance)
    | DepositCreatingCall(who: AccountId, amount: Balance)
    | DepositIntoExistingCall(who: AccountId, amount: Balance)
    | MintIntoCall(who: AccountId, amount: Balance)
    | WithdrawCall(who: AccountId, amount: Balance, reasons: set<WithdrawReason>, er: ExistenceRequirement)
    | TransferCall(who: AccountId, dest: AccountId, amount: Balance, er: ExistenceRequirement)
    | SlashCall(who: AccountId, amount: Balance, fromFree: bool)
    | ReserveCall(who: AccountId, amount: Balance)
    | UnreserveCall(who: AccountId, amount: Balance)
    | RepatriateCall(who: AccountId, dest: AccountId, amount: Balance, status: Status)
    | MakeFreeCall(who: AccountId, amount: Balance)
    | SetBalanceCall(who: AccountId, amount: Balance, reserved: Balance)
    | SetLockCall(who: AccountId, id: LockId, amount: Balance, reasons: set<WithdrawReason>, extend: bool)
    | RemoveLockCall(who: AccountId, id: LockId)
    // another pallet takes or gives back a consumer reference of its own
    | IncConsumersCall(who: AccountId)
    | DecConsumersCall(who: AccountId)

  /** The ledger after a call and the imbalances handed to the caller. */
  datatype Effect = Effect(ledger: Ledger, pos: Option<Balance>, neg: Option<Balance>)

  function Amount(t: Option<Balance>): Balance { if t.Some? then t.value else 0 }

  function Perform(l: Ledger, c: Call): Effect {
    match c
    case IssueCall(n) => var d := Issue(l, n); Effect(d.ledger, None, Some(d.result))
    case BurnCall(n) => var d := Burn(l, n); Effect(d.ledger, Some(d.result), None)
    case DepositCreatingCall(w, n) => var d := DepositCreating(l, w, n); Effect(d.ledger, Some(d.result), None)
    case DepositIntoExistingCall(w, n) =>
      var d := DepositIntoExisting(l, w, n);
      Effect(d.ledger, if d.result.Ok? then Some(d.result.value) else None, None)
    case MintIntoCall(w, n) => Effect(MintInto(l, w, n).ledger, None, None)
    case WithdrawCall(w, n, r, er) =>
      var d := Withdraw(l, w, n, r, er);
      Effect(d.ledger, None, if d.result.Ok? then Some(d.result.value) else None)
    case TransferCall(w, t, n, er) => Effect(Transfer(l, w, t, n, er).ledger, None, None)
    case SlashCall(w, n, f) => var d := Slash(l, w, n, f); Effect(d.ledger, None, Some(d.result.taken))
    case ReserveCall(w, n) => Effect(Reserve(l, w, n).ledger, None, None)
    case UnreserveCall(w, n) => Effect(Unreserve(l, w, n).ledger, None, None)
    case RepatriateCall(w, t, n, s) => Effect(Repatriate(l, w, t, n, s).ledger, None, None)
    case MakeFreeCall(w, n) =>
      var d := MakeFreeBalanceBe(l, w, n);
      if d.result.Positive? then Effect(d.ledger, Some(d.result.amount), None) else Effect(d.ledger, None, Some(d.result.amount))
    case SetBalanceCall(w, f, r) => Effect(SetBalance(l, w, f, r).ledger, None, None)
    case SetLockCall(w, id, n, r, x) => Effect(SetLock(l, w, id, n, r, x), None, None)
    case RemoveLockCall(w, id) => Effect(RemoveLock(l, w, id), None, None)
    case IncConsumersCall(w) => Effect(IncConsumers(l, w), None, None)
    case DecConsumersCall(w) =>
      Effect(if l.Consumers(w) > (if w in l.locks then 1 else 0) then DecConsumers(l, w) else l, None, None)
  }

  /** Imbalances that are alive, by name. */
  type Tokens = map<nat, Balance>

  /** The ledger and every imbalance alive in the runtime. */
  datatype Machine = Machine(ledger: Ledger, pos: Tokens, neg: Tokens)

  /** Something done to live imbalances. A name `j` for a new one must be unused. */
  datatype TokenOp =
    | SplitPos(i: nat, amount: Balance, j: nat)
    | SplitNeg(i: nat, amount: Balance, j: nat)
    | MergePos(i: nat, j: nat)
    | MergeNeg(i: nat, j: nat)
    | Offset(i: nat, j: nat)  // positive i against negative j, either way round
    | DropPos(i: nat)
    | DropNeg(i: nat)

  /** A call names the imbalance it may return. */
  datatype Op = Do(call: Call, name: nat) | Handle(token: TokenOp)

  function SplitIn(ts: Tokens, i: nat, amount: Balance, j: nat): Tokens
    requires i in ts
  {
    var first := Min(ts[i], amount);
    ts[i := first][j := ts[i] - first]
  }

  function MergeIn(ts: Tokens, i: nat, j: nat): Tokens
    requires i in ts && j in ts
  {
    ts[i := SatAdd(ts[i], ts[j])] - {j}
  }

  function OffsetIn(m: Machine, i: nat, j: nat): Machine
    requires i in m.pos && j in m.neg
  {
    var a, b := m.pos[i], m.neg[j];
    Machine(m.ledger,
            if a > b then m.pos[i := a - b] else m.pos - {i},
            if b > a then m.neg[j := b - a] else m.neg - {j})
  }

  /** An operation on names that do not fit does nothing. */
  function HandleToken(m: Machine, op: TokenOp): Machine {
    match op
    case SplitPos(i, n, j) => if i in m.pos && j !in m.pos then m.(pos := SplitIn(m.pos, i, n, j)) else m
    case SplitNeg(i, n, j) => if i in m.neg && j !in m.neg then m.(neg := SplitIn(m.neg, i, n, j)) else m
    case MergePos(i, j) => if i in m.pos && j in m.pos && i != j then m.(pos := MergeIn(m.pos, i, j)) else m
    case MergeNeg(i, j) => if i in m.neg && j in m.neg && i != j then m.(neg := MergeIn(m.neg, i, j)) else m
    case Offset(i, j) => if i in m.pos && j in m.neg then OffsetIn(m, i, j) else m
    case DropPos(i) => if i in m.pos then Machine(DropPositive(m.ledger, m.pos[i]), m.pos - {i}, m.neg) else m
    case DropNeg(i) => if i in m.neg then Machine(DropNegative(m.ledger, m.neg[i]), m.pos, m.neg - {i}) else m
  }

  function Keep(ts: Tokens, name: nat, t: Option<Balance>): Tokens {
    if t.Some? then ts[name := t.value] else ts
  }

  function Step(m: Machine, op: Op): Machine {
    match op
    case Do(c, name) =>
      if name in m.pos || name in m.neg then m else
        var e := Perform(m.ledger, c);
        Machine(e.ledger, Keep(m.pos, name, e.pos), Keep(m.neg, name, e.neg))
    case Handle(t) => HandleToken(m, t)
  }

  function Run(m: Machine, ops: seq<Op>): Machine
    decreases |ops|
  {
    if ops == [] then m else Run(Step(m, ops[0]), ops[1..])
  }

  ghost predicate Balanced(m: Machine) {
    m.ledger.issuance + SumMap(m.pos) == m.ledger.Supply() + SumMap(m.neg)
  }

  // ----- when a step is exact -----

  /** No stored account is below the existential deposit. */
  ghost predicate EdLaw(l: Ledger) {
    forall w :: w in l.accounts ==> l.accounts[w].Holdings() >= l.ed
  }

  /** Every account's holdings fit the balance type, as the pallet assumes of the
      sum over all accounts. */
  ghost predicate Fits(l: Ledger) {
    forall w :: w in l.accounts ==> l.accounts[w].Holdings() <= MAX
  }

  /** Writing `a`, with `made` negative imbalance already built by the closure,
      loses nothing: the account survives; or the store lets it die and the
      issuance covers its dust; or it refuses and there is nothing to drop. */
  predicate Kept(l: Ledger, who: AccountId, a: AccountData, made: nat) {
    || a.Holdings() >= l.ed
    || (if Refuses(l, who, a) then l.issuance == 0 || made + a.Holdings() == 0 else a.Holdings() <= l.issuance)
  }

  /** Replacing `was` by `becomes` squares up the issuance without saturating. */
  predicate Square(l: Ledger, was: Balance, becomes: Balance) {
    if becomes > was then l.issuance + (becomes - was) <= MAX else was - becomes <= l.issuance
  }

  predicate ExactCall(l: Ledger, c: Call) {
    match c
    case WithdrawCall(w, n, r, er) =>
      var p := WithdrawClosure(l, w, n, r, er);
      n != 0 && p.Ok? ==> Kept(l, w, p.value, n)
    case TransferCall(w, t, n, er) =>
      var p := TransferClosure(l, w, t, n, er);
      n != 0 && w != t && p.Ok? ==> Kept(l, w, p.value.0, 0)
    case SlashCall(w, n, f) =>
      n != 0 && l.Account(w).Total() != 0 ==> var (a, t) := Attempt(l, w, f, n); Kept(l, w, a, t)
    case RepatriateCall(w, t, n, s) =>
      var p := RepatriateClosure(l, w, t, n, true, s);
      n != 0 && w != t && p.Ok? ==> Kept(l, w, p.value.0, 0)
    case MakeFreeCall(w, n) =>
      w in l.accounts ==> Kept(l, w, l.Account(w).(free := n), SatSub(l.Account(w).free, n))
    case SetBalanceCall(w, f, r) =>
      var a := l.Account(w);
      if WrapAdd(f, r) < l.ed then
        if w in l.accounts && l.Pinned(w) then l.issuance == 0 else a.Holdings() <= l.issuance
      else Square(l, a.free, f) && Square(SquareUp(l, a.free, f), a.reserved, r)
    case _ => true
  }

  predicate ExactToken(m: Machine, op: TokenOp) {
    match op
    case MergePos(i, j) => i in m.pos && j in m.pos && i != j ==> m.pos[i] + m.pos[j] <= MAX
    case MergeNeg(i, j) => i in m.neg && j in m.neg && i != j ==> m.neg[i] + m.neg[j] <= MAX
    case DropPos(i) => i in m.pos ==> m.ledger.issuance + m.pos[i] <= MAX
    case DropNeg(i) => i in m.neg ==> m.neg[i] <= m.ledger.issuance
    case _ => true
  }

  predicate Exact(m: Machine, op: Op) {
    match op
    case Do(c, name) => name !in m.pos && name !in m.neg ==> ExactCall(m.ledger, c)
    case Handle(t) => ExactToken(m, t)
  }

  // ----- each call -----

  /** The call handed out exactly the imbalance it caused. */
  ghost predicate Squares(l: Ledger, e: Effect) {
    e.ledger.Gap() + Amount(e.neg) - Amount(e.pos) == l.Gap()
  }

  /** The account survives. */
  lemma WriteAlive(l: Ledger, w: AccountId, a: AccountData, made: nat)
    requires a.Holdings() >= l.ed
    ensures Store(l, w, a).Written? && Kept(l, w, a, made)
    ensures Store(l, w, a).ledger.Gap() == l.Gap() + a.Holdings() - l.Held(w)
  {
    StoreAlive(l, w, a);
  }

  /** The account dies. */
  lemma WriteDead(l: Ledger, w: AccountId, a: AccountData, made: nat)
    requires a.Holdings() < l.ed && !Refuses(l, w, a)
    ensures Store(l, w, a).Written?
    ensures Store(l, w, a).ledger.Gap() == l.Gap() + a.Holdings() - l.Held(w) <==> Kept(l, w, a, made)
  {
    StoreDead(l, w, a);
  }

  /** The store refuses, and the closure's imbalance is dropped with the dust. */
  lemma WriteRefused(l: Ledger, w: AccountId, a: AccountData, made: nat)
    requires Refuses(l, w, a)
    ensures Store(l, w, a).Refused?
    ensures DropNegative(Store(l, w, a).ledger, made).Gap() == l.Gap() <==> Kept(l, w, a, made)
  {
    StoreRefused(l, w, a);
    DropGap(DropNegative(l, a.Total()), made);
  }

  lemma WithdrawExact(l: Ledger, w: AccountId, n: Balance, r: set<WithdrawReason>, er: ExistenceRequirement)
    requires n != 0 && WithdrawClosure(l, w, n, r, er).Ok?
    ensures var d := Withdraw(l, w, n, r, er);
            var a := WithdrawClosure(l, w, n, r, er).value;
            d.ledger.Gap() + (if d.result.Ok? then n else 0) == l.Gap() <==> Kept(l, w, a, n)
    ensures Withdraw(l, w, n, r, er).result.Ok? ==> Withdraw(l, w, n, r, er).result.value == n
  {
    var a := WithdrawClosure(l, w, n, r, er).value;
    HeldIsHoldings(l, w);
    if Refuses(l, w, a) {
      WriteRefused(l, w, a, n);
    } else if a.Holdings() < l.ed {
      WriteDead(l, w, a, n);
    } else {
      WriteAlive(l, w, a, n);
    }
  }

  /** Two nested writes whose outer account survives. */
  lemma WriteBothExact(l: Ledger, w: AccountId, a: AccountData, t: AccountId, b: AccountData)
    requires w != t && b.Holdings() >= l.ed
    ensures var d := WriteBoth(l, w, a, t, b);
            d.result.Ok? == !Refuses(l, w, a) &&
            (d.ledger.Gap() == l.Gap() + (if d.result.Ok? then a.Holdings() + b.Holdings() - l.Held(w) - l.Held(t) else 0)
             <==> Kept(l, w, a, 0))
  {
    if Refuses(l, w, a) {
      WriteRefused(l, w, a, 0);
      DropGap(Store(l, w, a).ledger, 0);
    } else {
      if a.Holdings() < l.ed { WriteDead(l, w, a, 0); } else { WriteAlive(l, w, a, 0); }
      var l1 := Store(l, w, a).ledger;
      assert l1.Held(t) == l.Held(t);
      StoreAlive(l1, t, b);
    }
  }

  lemma TransferExact(l: Ledger, w: AccountId, t: AccountId, n: Balance, er: ExistenceRequirement)
    requires n != 0 && w != t && TransferClosure(l, w, t, n, er).Ok?
    ensures Transfer(l, w, t, n, er).ledger.Gap() == l.Gap() <==> Kept(l, w, TransferClosure(l, w, t, n, er).value.0, 0)
    ensures Transfer(l, w, t, n, er).result == Ok(())
  {
    var p := TransferClosure(l, w, t, n, er).value;
    HeldIsHoldings(l, w);
    HeldIsHoldings(l, t);
    WriteBothExact(l, w, p.0, t, p.1);
  }

  lemma RepatriateExact(l: Ledger, w: AccountId, t: AccountId, n: Balance, s: Status)
    requires EdLaw(l)
    requires n != 0 && w != t && RepatriateClosure(l, w, t, n, true, s).Ok?
    ensures Repatriate(l, w, t, n, s).ledger.Gap() == l.Gap() <==>
            Kept(l, w, RepatriateClosure(l, w, t, n, true, s).value.0, 0)
  {
    var p := RepatriateClosure(l, w, t, n, true, s).value;
    HeldIsHoldings(l, w);
    WriteBothExact(l, w, p.0, t, p.1);
  }

  /** What is left after an attempt. */
  lemma AttemptTakes(l: Ledger, w: AccountId, f: bool, best: Balance)
    ensures var (a, t) := Attempt(l, w, f, best); a.Holdings() + t == l.Held(w)
  {
    HeldIsHoldings(l, w);
  }

  /** The second attempt always leaves the existential deposit. */
  lemma SecondAttemptSurvives(l: Ledger, w: AccountId, n: Balance, f: bool)
    requires EdLaw(l) && Fits(l) && w in l.accounts
    ensures Attempt(l, w, f, BestAlive(l, w, n)).0.Holdings() >= l.ed
  {
  }

  lemma SlashExact(l: Ledger, w: AccountId, n: Balance, f: bool)
    requires EdLaw(l) && Fits(l)
    requires n != 0 && l.Account(w).Total() != 0
    ensures var (a, t) := Attempt(l, w, f, n);
            var d := Slash(l, w, n, f);
            d.ledger.Gap() + d.result.taken == l.Gap() <==> Kept(l, w, a, t)
  {
    var (a, t) := Attempt(l, w, f, n);
    AttemptTakes(l, w, f, n);
    if Refuses(l, w, a) {
      WriteRefused(l, w, a, t);
      var l1 := DropNegative(Store(l, w, a).ledger, t);
      var (b, u) := Attempt(l1, w, f, BestAlive(l1, w, n));
      AttemptTakes(l1, w, f, BestAlive(l1, w, n));
      SecondAttemptSurvives(l1, w, n, f);
      StoreAlive(l1, w, b);
    } else if a.Holdings() < l.ed {
      WriteDead(l, w, a, t);
    } else {
      WriteAlive(l, w, a, t);
    }
  }

  lemma MakeFreeExact(l: Ledger, w: AccountId, n: Balance)
    requires EdLaw(l) && w in l.accounts
    ensures var d := MakeFreeBalanceBe(l, w, n);
            var a := l.Account(w).(free := n);
            d.ledger.Gap() + (if d.result.Positive? then 0 - d.result.amount else d.result.amount) == l.Gap()
            <==> Kept(l, w, a, SatSub(l.Account(w).free, n))
  {
    var a := l.Account(w).(free := n);
    var made := SatSub(l.Account(w).free, n);
    if Refuses(l, w, a) {
      WriteRefused(l, w, a, made);
    } else if a.Holdings() < l.ed {
      WriteDead(l, w, a, made);
    } else {
      WriteAlive(l, w, a, made);
    }
  }

  lemma MakeFreeOfNew(l: Ledger, w: AccountId, n: Balance)
    requires w !in l.accounts
    ensures var d := MakeFreeBalanceBe(l, w, n); d.result.Positive? && d.ledger.Gap() - d.result.amount == l.Gap()
  {
    HeldIsHoldings(l, w);
    if n >= l.ed { StoreAlive(l, w, l.Account(w).(free := n)); }
  }

  /** Dropping the difference moves the gap by exactly that, iff it does not saturate. */
  lemma SquareUpGap(l: Ledger, was: Balance, becomes: Balance)
    ensures SquareUp(l, was, becomes).Gap() == l.Gap() + was - becomes <==> Square(l, was, becomes)
  {
    DropGap(l, if becomes > was then becomes - was else was - becomes);
  }

  lemma SquareUpIssuance(l: Ledger, f0: Balance, f1: Balance, r0: Balance, r1: Balance)
    ensures var n := SquareUp(SquareUp(l, f0, f1), r0, r1);
            n.issuance == l.issuance + f1 - f0 + r1 - r0 <==> Square(l, f0, f1) && Square(SquareUp(l, f0, f1), r0, r1)
    ensures SquareUp(SquareUp(l, f0, f1), r0, r1) == l.(issuance := SquareUp(SquareUp(l, f0, f1), r0, r1).issuance)
  {
  }

  /** The ledger `set_balance` writes to, once the differences are dropped. */
  function SquaredUp(l: Ledger, w: AccountId, f: Balance, r: Balance): Ledger {
    var a := l.Account(w);
    l.(issuance := SquareUp(SquareUp(l, a.free, f), a.reserved, r).issuance)
  }

  lemma SetBalanceAlive(l: Ledger, w: AccountId, f: Balance, r: Balance)
    requires WrapAdd(f, r) >= l.ed
    ensures SetBalance(l, w, f, r).ledger.Gap() == l.Gap() <==> ExactCall(l, SetBalanceCall(w, f, r))
  {
    var a := l.Account(w);
    var n := SquaredUp(l, w, f, r);
    SquareUpIssuance(l, a.free, f, a.reserved, r);
    HeldIsHoldings(l, w);
    assert n.Supply() == l.Supply() && n.Held(w) == l.Held(w);
    StoreAlive(n, w, a.(free := f, reserved := r));
  }

  /** The write of a wipeout, on the ledger with the differences dropped. */
  lemma WipeoutWrite(n: Ledger, w: AccountId, b: AccountData)
    requires b.free == 0 && b.reserved == 0 && n.ed > 0
    ensures Store(n, w, b).ledger.Gap() ==
            if w in n.accounts && n.Pinned(w) then n.Gap() else n.Gap() - n.Held(w)
  {
    if Refuses(n, w, b) { StoreRefused(n, w, b); } else { StoreDead(n, w, b); }
  }

  lemma SetBalanceWipeout(l: Ledger, w: AccountId, f: Balance, r: Balance)
    requires EdLaw(l) && WrapAdd(f, r) < l.ed
    ensures SetBalance(l, w, f, r).ledger.Gap() == l.Gap() <==> ExactCall(l, SetBalanceCall(w, f, r))
  {
    var a := l.Account(w);
    var n := SquaredUp(l, w, 0, 0);
    HeldIsHoldings(l, w);
    assert n.issuance == SatSub(l.issuance, l.Held(w));
    assert n.Supply() == l.Supply() && n.Held(w) == l.Held(w);
    WipeoutWrite(n, w, a.(free := 0, reserved := 0));
  }

  /** Calls that never lose anything. */
  lemma IssueSquares(l: Ledger, n: Balance)
    ensures Issue(l, n).ledger.Gap() + Issue(l, n).result == l.Gap()
    ensures Burn(l, n).ledger.Gap() - Burn(l, n).result == l.Gap()
  {
    assert Issue(l, n).ledger.accounts == l.accounts == Burn(l, n).ledger.accounts;
  }

  /** Dropping what `issue` or `burn` handed out undoes the call. */
  lemma DropUndoes(l: Ledger, n: Balance)
    ensures DropNegative(Issue(l, n).ledger, Issue(l, n).result) == l
    ensures DropPositive(Burn(l, n).ledger, Burn(l, n).result) == l
  {
  }

  lemma StoreDeposit(l: Ledger, w: AccountId, n: Balance)
    requires EdLaw(l) && l.Account(w).free + n <= MAX && (w in l.accounts || n >= l.ed)
    ensures var s := Store(l, w, l.Account(w).(free := l.Account(w).free + n));
            s.Written? && s.ledger.Gap() == l.Gap() + n
  {
    HeldIsHoldings(l, w);
    StoreAlive(l, w, l.Account(w).(free := l.Account(w).free + n));
  }

  lemma DepositCreatingSquares(l: Ledger, w: AccountId, n: Balance)
    requires EdLaw(l)
    ensures DepositCreating(l, w, n).ledger.Gap() - DepositCreating(l, w, n).result == l.Gap()
  {
    var a := l.Account(w);
    if n == 0 || (n < l.ed && w !in l.accounts) {
    } else if a.free + n <= MAX {
      StoreDeposit(l, w, n);
    } else {
      StoreAlive(l, w, a);
    }
  }

  lemma DepositIntoExistingSquares(l: Ledger, w: AccountId, n: Balance)
    requires EdLaw(l)
    ensures var d := DepositIntoExisting(l, w, n);
            d.ledger.Gap() - (if d.result.Ok? then d.result.value else 0) == l.Gap()
  {
    var a := l.Account(w);
    if n != 0 && w in l.accounts && a.free + n <= MAX { StoreAlive(l, w, a.(free := a.free + n)); }
  }

  lemma MintSquares(l: Ledger, w: AccountId, n: Balance)
    ensures MintInto(l, w, n).ledger.Gap() == l.Gap()
  {
    var a := l.Account(w);
    HeldIsHoldings(l, w);
    if n != 0 && DepositOutcome(l, n, a).CanDeposit? {
      var s := Store(l, w, a.(free := SatAdd(a.free, n))).ledger;
      StoreAlive(l, w, a.(free := SatAdd(a.free, n)));
      assert s.(issuance := WrapAdd(s.issuance, n)).accounts == s.accounts;
    }
  }

  lemma ReserveSquares(l: Ledger, w: AccountId, n: Balance)
    requires EdLaw(l)
    ensures Reserve(l, w, n).ledger.Gap() == l.Gap()
  {
    var a := l.Account(w);
    if n != 0 && n <= a.free && a.reserved + n <= MAX && EnsureCanWithdraw(l, w, n, {ForReserve}, a.free - n) {
      StoreAlive(l, w, a.(free := a.free - n, reserved := a.reserved + n));
    }
  }

  lemma UnreserveSquares(l: Ledger, w: AccountId, n: Balance)
    requires EdLaw(l) && Fits(l)
    ensures Unreserve(l, w, n).ledger.Gap() == l.Gap()
  {
    var a := l.Account(w);
    if n != 0 && a.Total() != 0 {
      var actual := Min(a.reserved, n);
      StoreAlive(l, w, a.(free := SatAdd(a.free, actual), reserved := a.reserved - actual));
    }
  }

  lemma UpdateLocksSquares(l: Ledger, w: AccountId, ls: seq<BalanceLock>)
    requires EdLaw(l)
    ensures UpdateLocks(l, w, ls).Gap() == l.Gap()
  {
    var a := l.Account(w).(miscFrozen := FrozenBy(ls, Misc), feeFrozen := FrozenBy(ls, Fee));
    RefreezeSquares(l, w, a);
    assert UpdateLocks(l, w, ls).accounts == Store(l, w, a).ledger.accounts;
    assert UpdateLocks(l, w, ls).issuance == Store(l, w, a).ledger.issuance;
  }

  lemma RefreezeSquares(l: Ledger, w: AccountId, a: AccountData)
    requires EdLaw(l) && a.Holdings() == l.Account(w).Holdings()
    ensures Store(l, w, a).ledger.Gap() == l.Gap()
  {
    HeldIsHoldings(l, w);
    if a.Holdings() >= l.ed { StoreAlive(l, w, a); } else { StoreDead(l, w, a); }
  }

  // ----- the theorem -----

  lemma MintAndMoveExact(l: Ledger, c: Call)
    requires EdLaw(l) && Fits(l)
    requires c.IssueCall? || c.BurnCall? || c.DepositCreatingCall? || c.DepositIntoExistingCall? || c.MintIntoCall?
             || c.ReserveCall? || c.UnreserveCall?
    ensures Squares(l, Perform(l, c))
  {
    match c
    case IssueCall(n) => IssueSquares(l, n);
    case BurnCall(n) => IssueSquares(l, n);
    case DepositCreatingCall(w, n) => DepositCreatingSquares(l, w, n);
    case DepositIntoExistingCall(w, n) => DepositIntoExistingSquares(l, w, n);
    case MintIntoCall(w, n) => MintSquares(l, w, n);
    case ReserveCall(w, n) => ReserveSquares(l, w, n);
    case UnreserveCall(w, n) => UnreserveSquares(l, w, n);
  }

  lemma LockCallsExact(l: Ledger, c: Call)
    requires EdLaw(l)
    requires c.SetLockCall? || c.RemoveLockCall? || c.IncConsumersCall? || c.DecConsumersCall?
    ensures Squares(l, Perform(l, c))
  {
    match c
    case SetLockCall(w, id, n, r, x) =>
      if n != 0 && r != {} { UpdateLocksSquares(l, w, Upsert(l.LocksOf(w), BalanceLock(id, n, ToReasons(r)), x)); }
    case RemoveLockCall(w, id) => UpdateLocksSquares(l, w, Remove(l.LocksOf(w), id));
    case IncConsumersCall(w) => assert IncConsumers(l, w).accounts == l.accounts;
    case DecConsumersCall(w) => assert DecConsumers(l, w).accounts == l.accounts;
  }

  lemma OutflowExact(l: Ledger, c: Call)
    requires EdLaw(l) && Fits(l)
    requires c.WithdrawCall? || c.TransferCall? || c.SlashCall?
    ensures Squares(l, Perform(l, c)) <==> ExactCall(l, c)
  {
    match c
    case WithdrawCall(w, n, r, er) =>
      if n != 0 && WithdrawClosure(l, w, n, r, er).Ok? { WithdrawExact(l, w, n, r, er); }
    case TransferCall(w, t, n, er) =>
      if n != 0 && w != t && TransferClosure(l, w, t, n, er).Ok? { TransferExact(l, w, t, n, er); }
    case SlashCall(w, n, f) =>
      if n != 0 && l.Account(w).Total() != 0 { SlashExact(l, w, n, f); }
  }

  lemma RepatriateCallExact(l: Ledger, c: Call)
    requires EdLaw(l) && Fits(l) && c.RepatriateCall?
    ensures Squares(l, Perform(l, c)) <==> ExactCall(l, c)
  {
    if c.who == c.dest {
      UnreserveSquares(l, c.who, c.amount);
    } else if c.amount != 0 && RepatriateClosure(l, c.who, c.dest, c.amount, true, c.status).Ok? {
      RepatriateExact(l, c.who, c.dest, c.amount, c.status);
    }
  }

  lemma MakeFreeCallExact(l: Ledger, c: Call)
    requires EdLaw(l) && c.MakeFreeCall?
    ensures Squares(l, Perform(l, c)) <==> ExactCall(l, c)
  {
    if c.who in l.accounts { MakeFreeExact(l, c.who, c.amount); } else { MakeFreeOfNew(l, c.who, c.amount); }
  }

  lemma SetBalanceCallExact(l: Ledger, c: Call)
    requires EdLaw(l) && c.SetBalanceCall?
    ensures Squares(l, Perform(l, c)) <==> ExactCall(l, c)
  {
    if WrapAdd(c.amount, c.reserved) < l.ed {
      SetBalanceWipeout(l, c.who, c.amount, c.reserved);
    } else {
      SetBalanceAlive(l, c.who, c.amount, c.reserved);
    }
  }

  /** A call hands out exactly the imbalance it causes if and only if it is exact. */
  lemma CallExact(l: Ledger, c: Call)
    requires EdLaw(l) && Fits(l)
    ensures Squares(l, Perform(l, c)) <==> ExactCall(l, c)
  {
    match c
    case WithdrawCall(_, _, _, _) => OutflowExact(l, c);
    case TransferCall(_, _, _, _) => OutflowExact(l, c);
    case SlashCall(_, _, _) => OutflowExact(l, c);
    case RepatriateCall(_, _, _, _) => RepatriateCallExact(l, c);
    case MakeFreeCall(_, _) => MakeFreeCallExact(l, c);
    case SetBalanceCall(_, _, _) => SetBalanceCallExact(l, c);
    case _ =>
      if c.SetLockCall? || c.RemoveLockCall? || c.IncConsumersCall? || c.DecConsumersCall? {
        LockCallsExact(l, c);
      } else {
        MintAndMoveExact(l, c);
      }
  }

  /** Splitting and merging touch the named imbalances only. */
  lemma SplitAndMerge(m: Machine, i: nat, n: Balance, j: nat)
    requires i in m.pos && i in m.neg && i != j
    ensures j !in m.pos ==> HandleToken(m, SplitPos(i, n, j)) == m.(pos := m.pos[i := Min(n, m.pos[i])][j := SatSub(m.pos[i], n)])
    ensures j !in m.neg ==> HandleToken(m, SplitNeg(i, n, j)) == m.(neg := m.neg[i := Min(n, m.neg[i])][j := SatSub(m.neg[i], n)])
    ensures j in m.pos ==> HandleToken(m, MergePos(i, j)) == m.(pos := (m.pos - {j})[i := SatAdd(m.pos[i], m.pos[j])])
    ensures j in m.neg ==> HandleToken(m, MergeNeg(i, j)) == m.(neg := (m.neg - {j})[i := SatAdd(m.neg[i], m.neg[j])])
  {
  }

  /** Offsetting leaves the larger one with the difference; dropping one moves the
      issuance by it, as far as it fits. */
  lemma OffsetAndDrop(m: Machine, i: nat, j: nat)
    requires i in m.pos && j in m.neg
    ensures var n := HandleToken(m, Offset(i, j));
            && n.ledger == m.ledger && n.pos - {i} == m.pos - {i} && n.neg - {j} == m.neg - {j}
            && (i in n.pos <==> m.pos[i] > m.neg[j]) && (i in n.pos ==> n.pos[i] == m.pos[i] - m.neg[j])
            && (j in n.neg <==> m.neg[j] > m.pos[i]) && (j in n.neg ==> n.neg[j] == m.neg[j] - m.pos[i])
    ensures HandleToken(m, DropPos(i)) ==
            Machine(m.ledger.(issuance := Min(m.ledger.issuance + m.pos[i], MAX)), m.pos - {i}, m.neg)
    ensures HandleToken(m, DropNeg(j)) ==
            Machine(m.ledger.(issuance := Max(m.ledger.issuance - m.neg[j], 0)), m.pos, m.neg - {j})
  {
  }

  lemma SplitSum(ts: Tokens, i: nat, n: Balance, j: nat)
    requires i in ts && j !in ts
    ensures SumMap(SplitIn(ts, i, n, j)) == SumMap(ts)
    ensures var both := SplitIn(ts, i, n, j); both[i] <= n && both[i] + both[j] == ts[i] && (both[i] < n ==> both[j] == 0)
  {
    var first := Min(ts[i], n);
    SumMapPut(ts, i, first);
    SumMapPut(ts[i := first], j, ts[i] - first);
  }

  lemma MergeSum(ts: Tokens, i: nat, j: nat)
    requires i in ts && j in ts && i != j
    ensures SumMap(MergeIn(ts, i, j)) == SumMap(ts) <==> ts[i] + ts[j] <= MAX
  {
    SumMapPut(ts, i, SatAdd(ts[i], ts[j]));
    SumMapRemove(ts[i := SatAdd(ts[i], ts[j])], j);
  }

  lemma OffsetSum(m: Machine, i: nat, j: nat)
    requires i in m.pos && j in m.neg
    ensures var n := OffsetIn(m, i, j); SumMap(n.pos) - SumMap(n.neg) == SumMap(m.pos) - SumMap(m.neg)
  {
    var a, b := m.pos[i], m.neg[j];
    if a > b { SumMapPut(m.pos, i, a - b); } else { SumMapRemove(m.pos, i); }
    if b > a { SumMapPut(m.neg, j, b - a); } else { SumMapRemove(m.neg, j); }
  }

  lemma KeepSum(ts: Tokens, name: nat, t: Option<Balance>)
    requires name !in ts
    ensures SumMap(Keep(ts, name, t)) == SumMap(ts) + Amount(t)
  {
    if t.Some? { SumMapPut(ts, name, t.value); }
  }

  lemma CallKeepsEquation(m: Machine, c: Call, name: nat)
    requires Balanced(m) && EdLaw(m.ledger) && Fits(m.ledger)
    requires name !in m.pos && name !in m.neg
    ensures Balanced(Step(m, Do(c, name))) <==> ExactCall(m.ledger, c)
  {
    CallExact(m.ledger, c);
    KeepSum(m.pos, name, Perform(m.ledger, c).pos);
    KeepSum(m.neg, name, Perform(m.ledger, c).neg);
  }

  lemma TokenOpKeepsEquation(m: Machine, op: TokenOp)
    requires Balanced(m)
    ensures Balanced(HandleToken(m, op)) <==> ExactToken(m, op)
  {
    match op
    case SplitPos(i, n, j) => if i in m.pos && j !in m.pos { SplitSum(m.pos, i, n, j); }
    case SplitNeg(i, n, j) => if i in m.neg && j !in m.neg { SplitSum(m.neg, i, n, j); }
    case MergePos(i, j) => if i in m.pos && j in m.pos && i != j { MergeSum(m.pos, i, j); }
    case MergeNeg(i, j) => if i in m.neg && j in m.neg && i != j { MergeSum(m.neg, i, j); }
    case Offset(i, j) => if i in m.pos && j in m.neg { OffsetSum(m, i, j); }
    case DropPos(i) => if i in m.pos { DropGap(m.ledger, m.pos[i]); SumMapRemove(m.pos, i); }
    case DropNeg(i) => if i in m.neg { DropGap(m.ledger, m.neg[i]); SumMapRemove(m.neg, i); }
  }

  /** One step keeps the equation if and only if it is exact. */
  lemma StepKeepsEquation(m: Machine, op: Op)
    requires Balanced(m) && EdLaw(m.ledger) && Fits(m.ledger)
    ensures Balanced(Step(m, op)) <==> Exact(m, op)
  {
    match op
    case Do(c, name) => if name !in m.pos && name !in m.neg { CallKeepsEquation(m, c, name); }
    case Handle(t) => TokenOpKeepsEquation(m, t);
  }
}
