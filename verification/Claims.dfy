/** Claims: each Ethereum address is paid its genesis amount once. */
module Claims {
  import opened Numbers
  import opened Sums
  import opened Ledgers
  import opened ClaimMessage
  import opened Issuance
  import C = Currency
  import BalancesPallet

  type EthereumAddress = nat

  /** What the runtime supplies: signature recovery over a message, the encoding
      of accounts, and the message prefix. */
  datatype Environment = Environment(
    recover: (Bytes, Bytes) -> Option<EthereumAddress>,
    encode: AccountId -> Bytes,
    prefix: Bytes)

  datatype State = State(ledger: Ledger, claims: map<EthereumAddress, Balance>)

  function ClaimOf(claims: map<EthereumAddress, Balance>, a: EthereumAddress): Balance {
    if a in claims then claims[a] else 0
  }

  datatype Validity = Valid(due: Balance, address: EthereumAddress) | InvalidEthereumSignature | NoClaimOrAlreadyClaimed

  function ValidateClaim(env: Environment, claims: map<EthereumAddress, Balance>, who: AccountId, signature: Bytes): Validity {
    match env.recover(signature, Signable(Hex(env.encode(who)), env.prefix))
    case None => InvalidEthereumSignature
    case Some(a) => if ClaimOf(claims, a) == 0 then NoClaimOrAlreadyClaimed else Valid(ClaimOf(claims, a), a)
  }

  datatype Outcome = Paid(address: EthereumAddress, amount: Balance) | Rejected(why: Validity) | BalanceOverflow

  datatype Claimed = Claimed(state: State, outcome: Outcome)

  /** Deposit, and zero the claim if anything was deposited; the positive
      imbalance goes out of scope at the end. */
  function ProcessClaim(s: State, dest: AccountId, due: Balance, a: EthereumAddress): Claimed {
    var d := C.DepositCreating(s.ledger, dest, due);
    if d.result == 0 then Claimed(State(DropPositive(d.ledger, 0), s.claims), BalanceOverflow)
    else Claimed(State(DropPositive(d.ledger, d.result), s.claims[a := 0]), Paid(a, due))
  }

  function Claim(env: Environment, s: State, who: AccountId, signature: Bytes): Claimed {
    match ValidateClaim(env, s.claims, who, signature)
    case Valid(due, a) => ProcessClaim(s, who, due, a)
    case v => Claimed(s, Rejected(v))
  }

  // ----- who may claim -----

  /** The message an account has to have signed: the fixed header, the length of what
      follows in decimal, the prefix and the account in hex. */
  function Message(env: Environment, who: AccountId): Bytes {
    var hex := Hex(env.encode(who));
    HEADER + Decimal(|env.prefix| + |hex|) + env.prefix + hex
  }

  /** A claim is rejected unless the signature over the account's own message is that
      of an address with an outstanding claim; then that address is paid its claim to
      the account, or the deposit fails. */
  lemma AcceptedIffSigned(env: Environment, s: State, who: AccountId, signature: Bytes)
    ensures var signer := env.recover(signature, Message(env, who));
            var o := Claim(env, s, who, signature).outcome;
            && (o.Rejected? <==> signer == None || ClaimOf(s.claims, signer.value) == 0)
            && (o.Paid? ==> o == Paid(signer.value, ClaimOf(s.claims, signer.value)))
            && (o.Rejected? ==> Claim(env, s, who, signature).state == s)
  {
  }

  /** If a signature recovers to an address over one message only and accounts have
      different encodings, only one account is ever paid for it. */
  lemma SignatureBindsAccount(env: Environment, s: State, who: AccountId, t: State, other: AccountId, signature: Bytes, a: EthereumAddress)
    requires forall m, n :: env.recover(signature, m) == Some(a) == env.recover(signature, n) ==> m == n
    requires forall x, y :: env.encode(x) == env.encode(y) ==> x == y
    requires Claim(env, s, who, signature).outcome.Paid? && Claim(env, s, who, signature).outcome.address == a
    requires Claim(env, t, other, signature).outcome.Paid? && Claim(env, t, other, signature).outcome.address == a
    ensures who == other
  {
    AcceptedIffSigned(env, s, who, signature);
    AcceptedIffSigned(env, t, other, signature);
    SignedAccountIsUnique(env.encode(who), env.encode(other), env.prefix);
  }

  // ----- runs of claims -----

  datatype Request = Request(who: AccountId, signature: Bytes)

  datatype Payment = Payment(address: EthereumAddress, amount: Balance)

  datatype History = History(state: State, payments: seq<Payment>)

  function Run(env: Environment, s: State, rs: seq<Request>): History
    decreases |rs|
  {
    if rs == [] then History(s, [])
    else
      var c := Claim(env, s, rs[0].who, rs[0].signature);
      var h := Run(env, c.state, rs[1..]);
      History(h.state, (if c.outcome.Paid? then [Payment(c.outcome.address, c.outcome.amount)] else []) + h.payments)
  }

  // ----- invariants -----

  /** No imbalance is alive, and issuance and outstanding claims fit together. */
  ghost predicate Ready(s: State) {
    EdLaw(s.ledger) && s.ledger.Gap() == 0 && s.ledger.issuance + SumMap(s.claims) <= MAX
  }

  ghost function Promised(s: State): nat { s.ledger.issuance + SumMap(s.claims) }

  lemma DepositFits(s: State, who: AccountId, a: EthereumAddress)
    requires Ready(s) && a in s.claims
    ensures s.ledger.Account(who).free + s.claims[a] <= MAX
    ensures s.ledger.issuance + s.claims[a] <= MAX
  {
    SumMapBound(s.claims, a);
    if who in s.ledger.accounts { SumMapBound(HoldingsOf(s.ledger.accounts), who); }
  }

  /** A valid claim is paid in full, or fails only because the amount cannot open
      the account; with no existential deposit it never fails. */
  lemma ProcessPays(s: State, who: AccountId, a: EthereumAddress)
    requires Ready(s) && a in s.claims && s.claims[a] != 0
    ensures s.ledger.Account(who).free + s.claims[a] <= MAX && s.ledger.issuance + s.claims[a] <= MAX
    ensures var due := s.claims[a];
            var c := ProcessClaim(s, who, due, a);
            if who in s.ledger.accounts || due >= s.ledger.ed then
              && c.outcome == Paid(a, due)
              && c.state.claims == s.claims[a := 0]
              && c.state.ledger == PaidTo(s.ledger, who, due)
            else c == Claimed(s, BalanceOverflow)
  {
    DepositFits(s, who, a);
    var acc := s.ledger.Account(who);
    var due := s.claims[a];
    if who in s.ledger.accounts || due >= s.ledger.ed {
      assert Store(s.ledger, who, acc.(free := acc.free + due)).Written?;
    }
  }

  /** The ledger after an amount is paid to an account. */
  function PaidTo(l: Ledger, who: AccountId, due: Balance): Ledger
    requires l.Account(who).free + due <= MAX
  {
    Put(l, who, l.Account(who).(free := l.Account(who).free + due)).(issuance := SatAdd(l.issuance, due))
  }

  /** A claim that is paid credits the claimant's free balance and the issuance with
      exactly the claim, which is gone; nothing else changes. */
  lemma ClaimPaysClaimant(env: Environment, s: State, who: AccountId, signature: Bytes)
    requires Ready(s) && Claim(env, s, who, signature).outcome.Paid?
    ensures var c := Claim(env, s, who, signature);
            var a, n, acc := c.outcome.address, c.outcome.amount, s.ledger.Account(who);
            && acc.free + n <= MAX && s.ledger.issuance + n <= MAX
            && c.state.claims == s.claims[a := 0]
            && c.state.ledger == s.ledger.(accounts := s.ledger.accounts[who := acc.(free := acc.free + n)],
                                           issuance := s.ledger.issuance + n)
  {
    ProcessPays(s, who, Claim(env, s, who, signature).outcome.address);
  }

  /** A paid amount arrives in the account and in the issuance alike. */
  lemma PaidSquares(l: Ledger, who: AccountId, due: Balance)
    requires EdLaw(l) && l.Account(who).free + due <= MAX && l.issuance + due <= MAX
    requires who in l.accounts || due >= l.ed
    ensures var n := PaidTo(l, who, due); EdLaw(n) && n.Gap() == l.Gap() && n.issuance == l.issuance + due
  {
    var acc := l.Account(who).(free := l.Account(who).free + due);
    HeldIsHoldings(l, who);
    SupplyPut(l, who, acc);
    assert Put(l, who, acc).(issuance := l.issuance + due).Supply() == Put(l, who, acc).Supply();
  }

  lemma PaidConserves(s: State, who: AccountId, a: EthereumAddress, n: State)
    requires Ready(s) && a in s.claims && s.ledger.Account(who).free + s.claims[a] <= MAX
    requires who in s.ledger.accounts || s.claims[a] >= s.ledger.ed
    requires n.claims == s.claims[a := 0] && n.ledger == PaidTo(s.ledger, who, s.claims[a])
    ensures Ready(n) && Promised(n) == Promised(s)
  {
    DepositFits(s, who, a);
    PaidSquares(s.ledger, who, s.claims[a]);
    SumMapPut(s.claims, a, 0);
  }

  lemma ProcessConserves(s: State, who: AccountId, a: EthereumAddress)
    requires Ready(s) && a in s.claims && s.claims[a] != 0
    ensures var c := ProcessClaim(s, who, s.claims[a], a);
            Ready(c.state) && Promised(c.state) == Promised(s) && c.state.ledger.ed == s.ledger.ed
  {
    ProcessPays(s, who, a);
    if who in s.ledger.accounts || s.claims[a] >= s.ledger.ed {
      PaidConserves(s, who, a, ProcessClaim(s, who, s.claims[a], a).state);
    }
  }

  /** Issuance plus outstanding claims never changes, and no imbalance stays alive. */
  lemma ClaimConserves(env: Environment, s: State, who: AccountId, signature: Bytes)
    requires Ready(s)
    ensures var c := Claim(env, s, who, signature);
            Ready(c.state) && Promised(c.state) == Promised(s) && c.state.ledger.ed == s.ledger.ed
  {
    var v := ValidateClaim(env, s.claims, who, signature);
    if v.Valid? { ProcessConserves(s, who, v.address); }
  }

  /** The only way a valid claim fails is an amount too small to open the account:
      never, if there is no existential deposit. */
  lemma ValidClaimFailsOnlyBelowDeposit(env: Environment, s: State, who: AccountId, signature: Bytes)
    requires Ready(s)
    ensures var v := ValidateClaim(env, s.claims, who, signature);
            Claim(env, s, who, signature).outcome.BalanceOverflow? <==>
            v.Valid? && who !in s.ledger.accounts && v.due < s.ledger.ed
  {
    var v := ValidateClaim(env, s.claims, who, signature);
    if v.Valid? { ProcessPays(s, who, v.address); }
  }

  // ----- every run -----

  /** Over every run the promise is kept: issuance plus outstanding claims is
      constant. */
  lemma {:induction false} RunConserves(env: Environment, s: State, rs: seq<Request>)
    requires Ready(s)
    ensures var n := Run(env, s, rs).state; Ready(n) && Promised(n) == Promised(s) && n.ledger.ed == s.ledger.ed
    decreases |rs|
  {
    if rs == [] {
    } else {
      ClaimConserves(env, s, rs[0].who, rs[0].signature);
      RunConserves(env, Claim(env, s, rs[0].who, rs[0].signature).state, rs[1..]);
    }
  }

  /** The amounts paid to one address. */
  function PaymentsTo(ps: seq<Payment>, a: EthereumAddress): seq<Balance> {
    if ps == [] then []
    else (if ps[0].address == a then [ps[0].amount] else []) + PaymentsTo(ps[1..], a)
  }

  /** Each address is paid at most once and then exactly its claim, which is gone
      afterwards; an unpaid claim is untouched. */
  lemma {:induction false} RunPaysOnce(env: Environment, s: State, rs: seq<Request>, a: EthereumAddress)
    ensures var h := Run(env, s, rs);
            var paid := PaymentsTo(h.payments, a);
            || (paid == [] && ClaimOf(h.state.claims, a) == ClaimOf(s.claims, a))
            || (paid == [ClaimOf(s.claims, a)] && ClaimOf(s.claims, a) != 0 && ClaimOf(h.state.claims, a) == 0)
    decreases |rs|
  {
    if rs == [] {
    } else {
      var c := Claim(env, s, rs[0].who, rs[0].signature);
      RunPaysOnce(env, c.state, rs[1..], a);
      var rest := Run(env, c.state, rs[1..]).payments;
      var ps := Run(env, s, rs).payments;
      if c.outcome.Paid? {
        assert ps == [Payment(c.outcome.address, c.outcome.amount)] + rest;
        assert ps[1..] == rest;
      } else {
        assert ps == rest;
        assert c.state.claims == s.claims;
      }
    }
  }

  // ----- genesis -----

  /** All that the genesis list grants an address. */
  function Granted(entries: seq<(EthereumAddress, Balance)>, a: EthereumAddress): nat {
    if entries == [] then 0
    else
      var e := entries[|entries| - 1];
      Granted(entries[..|entries| - 1], a) + (if e.0 == a then e.1 else 0)
  }

  /** All that the genesis list grants to anybody. */
  function TotalGranted(entries: seq<(EthereumAddress, Balance)>): nat {
    if entries == [] then 0 else TotalGranted(entries[..|entries| - 1]) + entries[|entries| - 1].1
  }

  /** The claims built from the list. */
  function Genesis(entries: seq<(EthereumAddress, Balance)>): map<EthereumAddress, Balance> {
    if entries == [] then map[]
    else
      var e, claims := entries[|entries| - 1], Genesis(entries[..|entries| - 1]);
      claims[e.0 := WrapAdd(ClaimOf(claims, e.0), e.1)]
  }

  method BuildGenesis(entries: seq<(EthereumAddress, Balance)>) returns (claims: map<EthereumAddress, Balance>)
    ensures claims == Genesis(entries)
  {
    claims := map[];
    for i := 0 to |entries|
      invariant claims == Genesis(entries[..i])
    {
      assert entries[..i + 1][..i] == entries[..i];
      var (a, amount) := entries[i];
      claims := claims[a := WrapAdd(ClaimOf(claims, a), amount)];
    }
    assert entries[..|entries|] == entries;
  }

  /** Repeated entries add up, modulo the width of the balance type. */
  lemma {:induction false} GenesisAddsUp(entries: seq<(EthereumAddress, Balance)>, a: EthereumAddress)
    ensures ClaimOf(Genesis(entries), a) == Wrapped(Granted(entries, a))
  {
    if entries == [] {
    } else {
      var front, e := entries[..|entries| - 1], entries[|entries| - 1];
      GenesisAddsUp(front, a);
      WrapAddOfWrapped(Granted(front, a), e.1);
    }
  }

  /** No address is granted more than the balance type holds. */
  ghost predicate NoneOverflows(entries: seq<(EthereumAddress, Balance)>) {
    forall a :: Granted(entries, a) <= MAX
  }

  lemma {:induction false} GrantedWithinTotal(entries: seq<(EthereumAddress, Balance)>, a: EthereumAddress)
    ensures Granted(entries, a) <= TotalGranted(entries)
  {
    if entries == [] {
    } else {
      GrantedWithinTotal(entries[..|entries| - 1], a);
    }
  }

  /** One more entry overflows iff something did before or its own address does now. */
  lemma OverflowOneMore(entries: seq<(EthereumAddress, Balance)>)
    requires entries != []
    ensures var front, e := entries[..|entries| - 1], entries[|entries| - 1];
            NoneOverflows(entries) <==> NoneOverflows(front) && Granted(front, e.0) + e.1 <= MAX
  {
    var front, e := entries[..|entries| - 1], entries[|entries| - 1];
    forall a ensures Granted(front, a) <= Granted(entries, a)
             ensures a != e.0 ==> Granted(front, a) == Granted(entries, a) {}
    assert Granted(entries, e.0) == Granted(front, e.0) + e.1;
  }

  /** The claims sum up to all that is granted iff nobody's overflow; otherwise less. */
  lemma {:induction false} GenesisSum(entries: seq<(EthereumAddress, Balance)>)
    ensures SumMap(Genesis(entries)) <= TotalGranted(entries)
    ensures SumMap(Genesis(entries)) == TotalGranted(entries) <==> NoneOverflows(entries)
  {
    if entries == [] {
    } else {
      var front, e := entries[..|entries| - 1], entries[|entries| - 1];
      var claims := Genesis(front);
      GenesisSum(front);
      GenesisAddsUp(front, e.0);
      OverflowOneMore(entries);
      SumMapPut(claims, e.0, WrapAdd(ClaimOf(claims, e.0), e.1));
      if NoneOverflows(front) { assert ClaimOf(claims, e.0) == Granted(front, e.0); }
    }
  }

  /** If issuance and all grants fit together, claims are exactly what was granted
      and the pallet is ready. */
  lemma GenesisIsReady(l: Ledger, entries: seq<(EthereumAddress, Balance)>)
    requires EdLaw(l) && l.Gap() == 0 && l.issuance + TotalGranted(entries) <= MAX
    ensures var s := State(l, Genesis(entries));
            && Ready(s) && Promised(s) == l.issuance + TotalGranted(entries)
            && forall a :: ClaimOf(s.claims, a) == Granted(entries, a)
  {
    forall a ensures Granted(entries, a) <= MAX && ClaimOf(Genesis(entries), a) == Granted(entries, a) {
      GrantedWithinTotal(entries, a);
      GenesisAddsUp(entries, a);
    }
    GenesisSum(entries);
  }

  /** From such a genesis, over every run of claims: each address is paid nothing or,
      once, exactly what the list grants it; issuance plus outstanding claims stays
      what it was; and without an existential deposit no valid claim ever fails. */
  lemma GenesisRun(env: Environment, l: Ledger, entries: seq<(EthereumAddress, Balance)>, rs: seq<Request>, a: EthereumAddress)
    requires EdLaw(l) && l.Gap() == 0 && l.issuance + TotalGranted(entries) <= MAX
    ensures var h := Run(env, State(l, Genesis(entries)), rs);
            var paid := PaymentsTo(h.payments, a);
            && (|| (paid == [] && ClaimOf(h.state.claims, a) == Granted(entries, a))
                || (paid == [Granted(entries, a)] && ClaimOf(h.state.claims, a) == 0))
            && Promised(h.state) == l.issuance + TotalGranted(entries)
            && (l.ed == 0 ==> forall r: Request :: !Claim(env, h.state, r.who, r.signature).outcome.BalanceOverflow?)
  {
    var s := State(l, Genesis(entries));
    var h := Run(env, s, rs);
    GenesisIsReady(l, entries);
    RunConserves(env, s, rs);
    RunPaysOnce(env, s, rs, a);
    if l.ed == 0 {
      forall r: Request ensures !Claim(env, h.state, r.who, r.signature).outcome.BalanceOverflow? {
        ValidClaimFailsOnlyBelowDeposit(env, h.state, r.who, r.signature);
      }
    }
  }

  // ----- the pallet -----

  /** The claims pallet and the balances pallet it deposits into. */
  class Pallet {
    const balances: BalancesPallet.Pallet
    var claims: map<EthereumAddress, Balance>

    constructor (balances: BalancesPallet.Pallet, claims: map<EthereumAddress, Balance>)
      ensures this.balances == balances && this.claims == claims
    {
      this.balances, this.claims := balances, claims;
    }

    ghost function Whole(): State
      reads this, balances
    {
      State(balances.State(), claims)
    }

    method Process(dest: AccountId, due: Balance, a: EthereumAddress) returns (o: Outcome)
      modifies this, balances
      ensures Claimed(Whole(), o) == ProcessClaim(old(Whole()), dest, due, a)
    {
      var imbalance := balances.DepositCreating(dest, due);
      if imbalance == 0 {
        balances.DropPositive(imbalance);
        return BalanceOverflow;
      }
      claims := claims[a := 0];
      balances.DropPositive(imbalance);
      return Paid(a, due);
    }

    method MakeClaim(env: Environment, who: AccountId, signature: Bytes) returns (o: Outcome)
      modifies this, balances
      ensures Claimed(Whole(), o) == Claim(env, old(Whole()), who, signature)
    {
      var hex := ToAsciiHex(env.encode(who));
      var message := EthereumSignableMessage(hex, env.prefix);
      var signer := env.recover(signature, message);
      if signer == None { return Rejected(InvalidEthereumSignature); }
      var due := if signer.value in claims then claims[signer.value] else 0;
      if due == 0 { return Rejected(NoClaimOrAlreadyClaimed); }
      o := Process(who, due, signer.value);
    }
  }
}
