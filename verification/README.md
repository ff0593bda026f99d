# HydraDX ledgers, verified

A Dafny model of the money-moving pallets of the HydraDX node and proofs about it:

- **Balances** (`Locks`, `Ledgers`, `Currency`, `Issuance`, `Reachable`, `Guarantees`,
  `Outcomes`, `Deaths`, `BalancesPallet`): accounts with free, reserved and frozen amounts, total issuance,
  imbalances that square up the issuance when dropped, dust removal, two-attempt
  slashing, nested mutations, and locks cached into frozen amounts.
- **Fee payment** (`FeePayment`): charging a transaction fee and correcting it.
- **Claims** (`ClaimMessage`, `Claims`): paying each Ethereum address its genesis amount
  once, against a signed message.
- **Exchange** (`Assets`, `Pool`, `DirectTrade`, `Matching`, `Resolution`, `Blocks`,
  `Statements`, `Payouts`, `Execution`, `Finalization`, `ExchangePallet`): intentions registered during a block and
  matched, traded directly or through the constant-product pool when it is finalized.
- **Fee arithmetic** (`FeeMath`), shared definitions (`Numbers`, `Sums`) and concrete
  inputs on which an expected property fails (`Findings`, `ExchangeFindings`).

Storage that the code updates in place is a class (`BalancesPallet.Pallet`,
`Claims.Pallet`, `DirectTrade.DirectTradeData`, `ExchangePallet.Pallet`). Each method is
proved equal to a function on the whole storage as one value (`Ledgers.Ledger`,
`Assets.Book`), and the laws are lemmas about those functions and about every run of them.

## Main results

- `Reachable.RunKeepsInvariant`: over every `Sound` run of calls and of imbalances split,
  merged, offset and dropped in any order, `issuance + positive imbalances = all balances + negative
  imbalances`, no stored account is below the existential deposit, and the cached frozen
  amounts are the maxima of the lock lists. `Issuance.StepKeepsEquation` makes the first
  part exact: a step keeps the equation **if and only if** a condition on the state before
  it holds (`Exact`).
- `ExchangePallet.Pallet.OnFinalize`: over a whole block every registered intention is
  dispatched exactly once, in greedy groups, **if and only if** the waiting pairs are ordinary
  (`Finalization.OnceEach`); what settles is exact (`Blocks.ProcessIsExact`); the total of
  every asset changes by exactly the discounts the pool burns, so every asset but the native
  one is conserved, and all are if no registered intention asks for a discount; and what each
  account holds of each asset changes by exactly the payments, fees and pool trades in the log
  (`Statements.ProcessAt`).
- `DirectTrade.ExecuteSettles` and `RevertRestores`: a prepared trade pays in full and
  leaves all reserves as they were; prepare then revert is the identity **if and only if** the
  balances do not leave a payment or fee reserved.
- `Execution.ProcessExecutes`: every entry of a block's log is what the pallet does on the
  ledger that the entries before it left. `Payouts`: who pays whom in a trade, so that a
  settled sale spends, and a settled purchase receives, exactly its amount on the ledger.
- `Outcomes`: for every call of the balances pallet, exactly when it succeeds and the account
  it leaves, field by field.
- `Claims.AcceptedIffSigned`, `SignatureBindsAccount`: a claim is paid only to the account
  whose message was signed.
- `Guarantees`: transfers are all or nothing, slashes never fall out of their loop, locks
  hold against transfers, withdrawals and reservations, `reducible_balance` is the exact
  threshold of `can_withdraw`. `Deaths.DeathTakesLeftover`: whatever call an account dies of,
  exactly its leftover leaves the issuance.
- `Claims.GenesisRun`: from a genesis that fits, every run of claims pays each address nothing
  or, once, exactly its accumulated amount, and issuance plus outstanding claims is constant.
- `ClaimMessage.SignableInjective`, `FeePayment.FeeRoundTrip`, `FeeMath.WithoutFeeInverts`.

## What the code does that one would not expect

- An account store that refuses a write drops the imbalances the closure has already
  built, so a refused slash, withdrawal or repatriation lowers the issuance although no
  account changes. `ExactCall` says exactly when; `RefusedSlashLosesIssuance` is an input.
- A lock set on a dead account is stored but not cached, and is not enforced when the
  account is funded later: `SetLockKeepsLaws`, `LockOnDeadAccountIsNotEnforced`.
- A pool trade with a discount burns native currency, also when the native currency is one
  of the traded assets: `Pool.SellConserves`, `DiscountBurnsNative`.
- A failed preparation can leave a reservation that reverting does not release:
  `RevertRestores` says exactly when, `FailedPreparationLeavesReserve` is an input.
- A used-up main intention keeps its old amount out and can take it from later matches for
  nothing: `ExhaustedTakes` says exactly when, `ExhaustedMainPaysNothing` is an input.
- A matched sale whose rest the pool would trade gets its limit in any case, yet is turned
  down when the pool pays more than the limit, because an unchecked subtraction wraps:
  `RestOfSaleChecked` says exactly when, `OverfilledSaleIsSkipped` is an input.
- Verifying an intention looks at its amount and its discount separately, and at nothing
  frozen, so that a verified one may not be executable: `VerifiedTrades` says exactly when,
  `VerifiedIsUnaffordable` is an input.
- A main purchase gets more than it asked for from a match that offers more, and what it
  still wants then wraps: `FirstMatchOverfills` and `WantedShrinks` say exactly when,
  `NeverOverfilled` when never, `PurchaseIsOverfilled` is an input.
- A main sale used up by a larger match is not checked against its limit: `MainUsedUp` says
  what it receives, `SaleIsUsedUpBelowLimit` is an input.
- The comment on `process_exchange_intentions` says that a group's sum stays at or below the
  main amount; the code takes intentions until the sum reaches it, and so does the model:
  `GroupReaches`.
- Intentions of an asset against itself would be dispatched twice, and a pair with a multiple
  of 2^32 intentions not at all: `DispatchedExactly`.

## Reading the model

- Balances are 128-bit. Checked and saturating arithmetic is written out; plain `+` and `-`
  wrap, as in the release profile of Cargo.toml, which leaves overflow checks off.
- The account store is its contract: a write is refused exactly when it would remove an
  account that is pinned by consumer references. Dust is dropped, as the runtime configures.
- Other pallets appear in runs as taking and giving back consumer references of their own.
- The inputs of `ExchangeFindings` hold for every pool with the constant-product curve.
- In the exchange, `T::Currency` is a map from asset and account to free, reserved and frozen
  balance without existential deposits, and its recipients exist; the pool's curve
  functions, the set of pools and their accounts are parameters.
- Signature recovery, account encoding and the message prefix are parameters of a claim;
  whether the currency swap before a fee went through is a parameter of the fee charge.
- `sort_by` is insertion from the left behind equals, which is stable.
- `Sound` runs assume what the pallet documents: no account outgrows the balance type.

## Model

| member | source | states |
|---|---|---|
| `BalancesPallet.Pallet.StoreAccount` | pallets/balances/src/lib.rs:815-836 | Writing an account back: below the existential deposit it is removed and reported as dust; a pinned account may not be removed |
| `BalancesPallet.Pallet.MutateAccount` | pallets/balances/src/lib.rs:776-800 | The same with the dust dropped, whether or not the store accepts |
| `BalancesPallet.Pallet.Burn` | pallets/balances/src/lib.rs:1283-1294 | Takes at most the whole issuance and returns exactly what was taken |
| `BalancesPallet.Pallet.Issue` | pallets/balances/src/lib.rs:1299-1310 | Issues at most up to the maximum and returns exactly what was issued |
| `BalancesPallet.Pallet.Transfer` | pallets/balances/src/lib.rs:1340-1382 | Nested mutation of source inside destination, every error in order, equal to the ledger function `Currency.Transfer` |
| `BalancesPallet.Pallet.StoreNested` | pallets/balances/src/lib.rs:1350-1376 | The inner account is written first, the outer only if the inner was accepted, both dusts dropped at the end |
| `BalancesPallet.Pallet.Withdraw` | pallets/balances/src/lib.rs:1501-1529 | Existence and lock rules, and that a refused write drops the imbalance already built |
| `BalancesPallet.Pallet.DepositIntoExisting` | pallets/balances/src/lib.rs:1447-1463 | Deposits into live accounts only, returning the positive imbalance |
| `BalancesPallet.Pallet.DepositCreating` | pallets/balances/src/lib.rs:1472-1496 | Deposits or does nothing, returning the positive imbalance or zero |
| `BalancesPallet.Pallet.MintInto` | pallets/balances/src/lib.rs:978-989 | Account and issuance grow together or nothing happens |
| `BalancesPallet.Pallet.MakeFreeBalanceBe` | pallets/balances/src/lib.rs:1532-1560 | Sets the free balance and returns the signed difference |
| `BalancesPallet.Pallet.SetBalance` | pallets/balances/src/lib.rs:294-328 | Root call: wipes out below the existential deposit, differences dropped inside the closure |
| `BalancesPallet.Pallet.Reserve` | pallets/balances/src/lib.rs:1589-1605 | Moves free to reserved under the lock rule |
| `BalancesPallet.Pallet.Unreserve` | pallets/balances/src/lib.rs:1610-1637 | Moves reserved to free, returning what could not be moved |
| `BalancesPallet.Pallet.TransferReservedToSelf` | pallets/balances/src/lib.rs:903-908 | Repatriation between an account and itself, with the value the code returns |
| `BalancesPallet.Pallet.TransferReserved` | pallets/balances/src/lib.rs:892-941 | Moves reserved balance between two accounts, best effort or all |
| `BalancesPallet.Pallet.RepatriateReserved` | pallets/balances/src/lib.rs:1683-1691 | Best-effort repatriation and its remainder |
| `BalancesPallet.TakeFreeFirst` | pallets/balances/src/lib.rs:1414-1432 | The slash closure takes free balance first, then reserved, and reports exactly what it took |
| `BalancesPallet.Pallet.TrySlash` | pallets/balances/src/lib.rs:1402-1434 | One attempt of `slash`; a refused one drops its imbalance |
| `BalancesPallet.Pallet.TrySlashReserved` | pallets/balances/src/lib.rs:1655-1668 | One attempt of `slash_reserved` |
| `BalancesPallet.Pallet.Slash` | pallets/balances/src/lib.rs:1393-1442 | The two-attempt loop of `slash` (and of `slash_reserved`) computes `Currency.Slash` |
| `BalancesPallet.Pallet.UpdateLocks` | pallets/balances/src/lib.rs:839-885 | Caches the maxima, stores the list, and takes or gives back one consumer reference |
| `BalancesPallet.Pallet.SetLock` | pallets/balances/src/lib.rs:1704-1752 | `set_lock` and `extend_lock` |
| `BalancesPallet.Pallet.RemoveLock` | pallets/balances/src/lib.rs:1754-1758 | `remove_lock` |
| `BalancesPallet.UpsertLock` | pallets/balances/src/lib.rs:1713-1719 | The `filter_map` pass in which the first lock with the id uses up the new one |
| `BalancesPallet.RetainOthers` | pallets/balances/src/lib.rs:1755-1756 | `retain` keeps exactly the locks with another id |
| `Locks.RemoveRefines` | pallets/balances/src/lib.rs:1754-1758 | Removing from the list is removing from the map of locks by id, and ids stay unique |
| `Locks.UpsertRefines` | pallets/balances/src/lib.rs:1704-1752 | Setting or extending in the list is one update of the map of locks by id, and ids stay unique |
| `Locks.UniqueByPosition` | pallets/balances/src/lib.rs:562-563 | At most one lock per identifier, by position in the list |
| `Locks.FrozenByIsMaximum` | pallets/balances/src/lib.rs:848-858 | The cached amount is an upper bound of the locks for its reason, and attained or zero |
| `Locks.ExtendNeverLowers` | pallets/balances/src/lib.rs:1725-1752 | Extending a lock never lowers a frozen amount |
| `Locks.ExtendIdempotent` | pallets/balances/src/lib.rs:1725-1752 | Extending twice with the same lock is extending once |
| `Locks.OverlapIsFrozen` | pallets/balances/src/lib.rs:601-607 | A lock whose reasons overlap a withdrawal's is covered by the amount frozen for it |
| `Ledgers.StoreAlive` | pallets/balances/src/lib.rs:676-690 | A surviving account moves the gap between balances and issuance by exactly its change |
| `Ledgers.StoreDead` | pallets/balances/src/lib.rs:676-690 | A dying account takes its holdings out of the supply and its dust off the issuance |
| `Ledgers.StoreRefused` | pallets/balances/src/lib.rs:819-828 | A refused write changes no account, yet its dust leaves the issuance |
| `Ledgers.DropGap` | pallets/balances/src/lib.rs:1238-1250 | A dropped imbalance moves the gap between balances and issuance by its amount, cut off where the issuance saturates |
| `Issuance.WithdrawExact` | pallets/balances/src/lib.rs:1501-1529 | A withdrawal keeps the issuance equation iff its write survives, or dies with covered dust, or is refused with nothing to drop |
| `Issuance.TransferExact` | pallets/balances/src/lib.rs:1340-1382 | A transfer keeps the equation iff the dust of a dying source is covered; the store never refuses it |
| `Issuance.RepatriateExact` | pallets/balances/src/lib.rs:910-932 | The same for repatriation between distinct accounts |
| `Issuance.SlashExact` | pallets/balances/src/lib.rs:1393-1442 | A slash keeps the equation iff its first attempt is not refused (or there is no issuance) and its dust is covered |
| `Issuance.MakeFreeExact` | pallets/balances/src/lib.rs:1532-1560 | Forcing the free balance keeps the equation iff the write is kept |
| `Issuance.MakeFreeOfNew` | pallets/balances/src/lib.rs:1548-1556 | On a new account it always does |
| `Issuance.SquareUpGap` | pallets/balances/src/lib.rs:309-319 | The imbalance between an old and a new amount, dropped, moves the gap by exactly the difference iff it does not saturate |
| `Issuance.SetBalanceAlive` | pallets/balances/src/lib.rs:302-324 | `set_balance` keeps the equation iff neither difference saturates the issuance |
| `Issuance.SetBalanceWipeout` | pallets/balances/src/lib.rs:302-324 | A wipeout keeps it iff the account is unpinned and covered, or there is no issuance |
| `Issuance.IssueSquares` | pallets/balances/src/lib.rs:1283-1310 | `issue` and `burn` hand out exactly the imbalance they cause |
| `Issuance.DropUndoes` | pallets/balances/src/lib.rs:1238-1310 | Dropping the imbalance that `issue` or `burn` returned restores the ledger |
| `Issuance.DepositCreatingSquares` | pallets/balances/src/lib.rs:1472-1496 | So does every outcome of `deposit_creating` |
| `Issuance.DepositIntoExistingSquares` | pallets/balances/src/lib.rs:1447-1463 | So does every outcome of `deposit_into_existing` |
| `Issuance.MintSquares` | pallets/balances/src/lib.rs:978-989 | Minting moves account and issuance together |
| `Issuance.ReserveSquares` | pallets/balances/src/lib.rs:1589-1605 | Reserving changes neither supply nor issuance |
| `Issuance.UnreserveSquares` | pallets/balances/src/lib.rs:1610-1637 | Nor does unreserving |
| `Issuance.UpdateLocksSquares` | pallets/balances/src/lib.rs:839-885 | Nor do lock calls |
| `Issuance.SplitSum` | pallets/balances/src/lib.rs:1145-1151 | Splitting an imbalance conserves it |
| `Issuance.MergeSum` | pallets/balances/src/lib.rs:1152-1157 | Merging conserves iff the sum does not saturate |
| `Issuance.OffsetSum` | pallets/balances/src/lib.rs:1162-1173 | Offsetting conserves the difference of positive and negative imbalances |
| `Issuance.SplitAndMerge` | pallets/balances/src/lib.rs:1145-1157 | Splitting cuts an imbalance at the amount asked for, merging adds up to the maximum; no other imbalance changes |
| `Issuance.OffsetAndDrop` | pallets/balances/src/lib.rs:1162-1250 | Offsetting leaves the larger imbalance with the difference, dropping moves the issuance by it; no other imbalance changes |
| `Issuance.CallExact` | pallets/balances/src/lib.rs:815-941 | Every call hands out exactly the imbalance it causes iff it is exact, a condition on the state before the call |
| `Issuance.TokenOpKeepsEquation` | pallets/balances/src/lib.rs:1132-1251 | Every operation on live imbalances keeps the equation iff it does not saturate |
| `Issuance.StepKeepsEquation` | pallets/balances/src/lib.rs:815-1691 | One step of the pallet keeps `issuance + positives = balances + negatives` iff it is exact |
| `Reachable.StoreKeepsLaws` | pallets/balances/src/lib.rs:676-690 | A write that leaves the frozen amounts alone keeps the existential-deposit and lock laws |
| `Reachable.SetLockKeepsLaws` | pallets/balances/src/lib.rs:1704-1752 | The cached amounts stay the maxima of the list iff the account is alive or there is no existential deposit |
| `Reachable.RemoveLockKeepsLaws` | pallets/balances/src/lib.rs:1754-1758 | Removing a lock keeps the laws |
| `Reachable.CallKeepsLaws` | pallets/balances/src/lib.rs:629-941 | Every call keeps the existential-deposit law, and the lock law iff no lock is placed on a dead account |
| `Reachable.RunKeepsInvariant` | pallets/balances/src/lib.rs:815-1758 | After every sound run of calls and imbalance operations: issuance equation, existential-deposit law, lock law |
| `Reachable.AtRest` | pallets/balances/src/lib.rs:146-148 | With no imbalance alive the issuance is the sum of all balances and every account fits the balance type |
| `Reachable.ExactWithoutDeposit` | runtime/src/lib.rs:335-350 | Without an existential deposit every call but `set_balance` is exact |
| `Reachable.ExactWithoutPositive` | pallets/balances/src/lib.rs:1245-1250 | With no positive imbalance alive a write is exact unless a pinned account would die |
| `Reachable.GenesisIsInvariant` | pallets/balances/src/lib.rs:463-504 | Genesis establishes the invariant |
| `Deaths.DeathTakesLeftover` | pallets/balances/src/lib.rs:676-836 | For every call: an account that is gone afterwards is the one the call was about and was not pinned; exactly what it held less what was withdrawn or moved went off the issuance, and that is below the existential deposit unless `set_balance` wiped it out |
| `Deaths.OthersKillNobody` | pallets/balances/src/lib.rs:676-836 | Deposits, minting, reserving, unreserving and lock calls leave every account alive |
| `Guarantees.TransferAllOrNothing` | pallets/balances/src/lib.rs:1340-1382 | On error nothing changes; on success exactly the value moves, only a dying source's dust leaves the issuance, nothing else is touched, and the store is never asked for a write it refuses |
| `Guarantees.SlashAtOnce` | pallets/balances/src/lib.rs:1393-1442 | An accepted first attempt takes the smaller of value and available balance |
| `Guarantees.SlashSecondTime` | pallets/balances/src/lib.rs:1409-1412 | After a refusal the second attempt is always accepted and leaves the existential deposit |
| `Guarantees.SlashOutcome` | pallets/balances/src/lib.rs:1393-1442 | Neither slash falls out of its loop: taken plus left is the value, and what is taken in every case |
| `Guarantees.SlashFreeFirst` | pallets/balances/src/lib.rs:1414-1421 | Reserved balance shrinks only once the free balance is gone |
| `Guarantees.RefusedSlashCost` | pallets/balances/src/lib.rs:1401-1437 | A refused first attempt takes all that the account held off the issuance |
| `Guarantees.TransferRespectsLocks` | pallets/balances/src/lib.rs:1364-1365 | In a lawful state a successful transfer leaves free at or above every overlapping lock |
| `Guarantees.WithdrawRespectsLocks` | pallets/balances/src/lib.rs:1523 | The same for withdrawals, for any set of reasons |
| `Guarantees.ReserveRespectsLocks` | pallets/balances/src/lib.rs:1600 | The same for reservations |
| `Guarantees.ExtendLockGrows` | pallets/balances/src/lib.rs:1725-1752 | On a lawful ledger, extending never lowers what is frozen for any reason, for any account |
| `Guarantees.ExtendLockIdempotent` | pallets/balances/src/lib.rs:1725-1752 | On the ledger, extending twice is extending once, consumer references included, for accounts live or dead |
| `Guarantees.ReducibleIsThreshold` | pallets/balances/src/lib.rs:956-974 | `reducible_balance` is the exact threshold of `can_withdraw`, with and without keep-alive |
| `Guarantees.RepatriateMovesExactly` | pallets/balances/src/lib.rs:892-941 | Between distinct accounts exactly the reported amount changes hands |
| `Outcomes.FrozenFor` | pallets/balances/src/lib.rs:536-546 | A withdrawal for transaction fees respects the fee-frozen amount, one for anything else the misc-frozen one, one for both both |
| `Outcomes.FrozenIsLocked` | pallets/balances/src/lib.rs:839-859 | In a lawful state what is frozen for a set of reasons is exactly what the listed locks bar for it |
| `Outcomes.IssueOutcome` | pallets/balances/src/lib.rs:1283-1310 | Issuance changes by as much of the amount as fits, and exactly that is returned |
| `Outcomes.TransferOutcome` | pallets/balances/src/lib.rs:1340-1382 | A transfer succeeds iff free balance, lock, overflow, existential deposit and pin allow it |
| `Outcomes.WithdrawOutcome` | pallets/balances/src/lib.rs:1501-1529 | A withdrawal succeeds iff funds, frozen amounts and survival allow it; free balance falls by exactly the amount and nothing else changes |
| `Outcomes.ConsequenceAgrees` | pallets/balances/src/lib.rs:732-766 | `can_withdraw` announces exactly what a withdrawal for every reason does, and the dust it leaves |
| `Outcomes.DepositIntoExistingOutcome` | pallets/balances/src/lib.rs:1447-1463 | Free balance grows by exactly the amount iff the account lives and does not overflow; else nothing changes |
| `Outcomes.DepositCreatingOutcome` | pallets/balances/src/lib.rs:1472-1496 | The same, opening the account if the amount reaches the existential deposit |
| `Outcomes.MintOutcome` | pallets/balances/src/lib.rs:978-989 | Free balance and issuance grow by the amount iff both fit and the account reaches the deposit; else nothing changes |
| `Outcomes.MakeFreeOutcome` | pallets/balances/src/lib.rs:1532-1560 | Free balance is what was asked for, with the exact signed difference, unless the account would be new and too small or pinned and dying |
| `Outcomes.SetBalanceOutcome` | pallets/balances/src/lib.rs:294-328 | Both balances are what was asked for, or the account is wiped out; it fails iff a pinned account would be |
| `Outcomes.ReserveOutcome` | pallets/balances/src/lib.rs:1589-1605 | Exactly the amount moves from free to reserved iff it is there, fits and is not frozen; else nothing changes |
| `Outcomes.UnreserveOutcome` | pallets/balances/src/lib.rs:1610-1637 | As much as is reserved moves back, and the rest is returned |
| `Outcomes.RepatriateOutcome` | pallets/balances/src/lib.rs:892-941 | As much as is reserved arrives in the free or reserved balance asked for iff the beneficiary lives, does not overflow and the other account may die or survives |
| `Outcomes.SelfRepatriateOutcome` | pallets/balances/src/lib.rs:903-908 | Between an account and itself: what is freed, and that the value returned is what was moved |
| `Outcomes.SlashFields` | pallets/balances/src/lib.rs:1414-1421 | In either attempt `slash` takes from free and then from reserved balance, `slash_reserved` from reserved only; frozen amounts stay |
| `Outcomes.ExtendJoins` | pallets/balances/src/lib.rs:1735-1742 | Extending keeps the larger amount and bars exactly what either lock barred |
| `Outcomes.ReferencesFollowLocks` | pallets/balances/src/lib.rs:860-885 | The first lock of a live account takes one consumer reference and the last one gives it back |
| `FeePayment.ChargeFee` | pallets/transaction-multi-payment/src/lib.rs:382-407 | Fee withdrawal with the reasons of fee and tip, keeping the account alive |
| `FeePayment.CorrectAndDepositFee` | pallets/transaction-multi-payment/src/lib.rs:415-441 | Refund, offset and split; the offset error branch is unreachable |
| `FeePayment.ChargeTakesFee` | pallets/transaction-multi-payment/src/lib.rs:403-406 | A charge takes exactly the fee and holds all of it as an imbalance |
| `FeePayment.ChargeOutcome` | pallets/transaction-multi-payment/src/lib.rs:382-407 | A fee is charged iff the swap went through, the payer has it and survives, and every lock for fees (with a tip, every lock) leaves it |
| `FeePayment.CorrectionConserves` | pallets/transaction-multi-payment/src/lib.rs:423-438 | The two imbalances handed on add up to the net cost, the first being the smaller of net cost and tip; the refund goes to the payer; the issuance equation is kept |
| `FeePayment.FeeRoundTrip` | pallets/transaction-multi-payment/src/lib.rs:382-441 | Charge and correct: the net cost is the smaller of charged and corrected fee |
| `Claims.Pallet.Process` | pallets/claims/src/lib.rs:176-188 | Deposit, then zero the claim, then drop the imbalance |
| `Claims.Pallet.MakeClaim` | pallets/claims/src/lib.rs:133-169 | Recover the signer of the account's message, check the claim, pay it |
| `Claims.BuildGenesis` | pallets/claims/src/lib.rs:122-126 | The loop over the genesis list computes `Claims.Genesis` |
| `Claims.ProcessPays` | pallets/claims/src/lib.rs:176-188 | A claim is paid in full and zeroed, or nothing changes |
| `Claims.AcceptedIffSigned` | pallets/claims/src/lib.rs:154-165 | A claim is rejected unless the signature recovers, over the claimant's own message, to an address with an outstanding claim, and only that claim is paid |
| `Claims.SignatureBindsAccount` | pallets/claims/src/lib.rs:154-165 | If a signature recovers to an address over one message only and encodings are injective, only one account is ever paid for it |
| `Claims.ClaimPaysClaimant` | pallets/claims/src/lib.rs:176-188 | A paid claim credits exactly the claimant's free balance and the issuance, zeroes the claim and changes nothing else |
| `Claims.ValidClaimFailsOnlyBelowDeposit` | pallets/claims/src/lib.rs:177-181 | A valid claim fails iff its amount is too small to open the account |
| `Claims.ClaimConserves` | pallets/claims/src/lib.rs:133-188 | A claim keeps issuance plus outstanding claims |
| `Claims.RunConserves` | pallets/claims/src/lib.rs:133-188 | So does every run of claims |
| `Claims.RunPaysOnce` | pallets/claims/src/lib.rs:160-165 | Over every run each address is paid at most once, and then exactly its claim |
| `Claims.GenesisAddsUp` | pallets/claims/src/lib.rs:122-126 | Repeated entries of an address add up, modulo 2^128 |
| `Claims.GenesisSum` | pallets/claims/src/lib.rs:122-126 | The claims sum up to all that is granted iff no address overflows, and to less otherwise |
| `Claims.GenesisIsReady` | pallets/claims/src/lib.rs:122-126 | If issuance and all grants fit together, every claim is exactly what was granted and the run invariant holds |
| `Claims.GenesisRun` | pallets/claims/src/lib.rs:122-188 | From such a genesis, over every run, each address is paid nothing or once exactly its accumulated genesis amount, issuance plus outstanding claims is constant, and with no existential deposit no valid claim fails |
| `ClaimMessage.ToAsciiHex` | pallets/claims/src/lib.rs:192-200 | The nibble loop computes lower-case hex |
| `ClaimMessage.HexDigitIsText` | pallets/claims/src/lib.rs:192-200 | The digits are those of lower-case hex |
| `ClaimMessage.HexRoundTrip` | pallets/claims/src/lib.rs:191-200 | Hex is twice as long and decodes back |
| `ClaimMessage.EthereumSignableMessage` | pallets/claims/src/traits.rs:80-93 | The digit loop and the buffer compute header, decimal length, prefix and data |
| `ClaimMessage.HeaderIsText` | pallets/claims/src/traits.rs:88-90 | The header is byte 0x19 and the fixed text |
| `ClaimMessage.SignableStructure` | pallets/claims/src/traits.rs:80-93 | After the header come canonical decimal digits that denote the length of all that follows: prefix and data |
| `ClaimMessage.DecimalValue` | pallets/claims/src/traits.rs:82-87 | The printed length denotes prefix length plus data length |
| `ClaimMessage.DecimalIsCanonical` | pallets/claims/src/traits.rs:84-87 | Digits only, no leading zero; a zero length is printed as nothing |
| `ClaimMessage.SignableInjective` | pallets/claims/src/traits.rs:80-93 | Equal messages carry equal data, even of different lengths |
| `ClaimMessage.SignedAccountIsUnique` | pallets/claims/src/lib.rs:154-156 | The signed message determines the claiming account |
| `FeeMath.WithFeeAddsJustFee` | primitives/src/lib.rs:122-135 | `with_fee` is the amount plus `just_fee` |
| `FeeMath.JustFeeIsFloor` | primitives/src/lib.rs:132-135 | The fee is the share rounded down, and fails iff the product overflows or there is no denominator |
| `FeeMath.WithoutFeeIsFloor` | primitives/src/lib.rs:127-130 | The amount without fee is the quotient rounded down, and fails likewise |
| `FeeMath.WithoutFeeInverts` | primitives/src/lib.rs:122-130 | `without_fee` after `with_fee` gives the amount back iff the fee was not rounded, else one less |
| `FeeMath.JustFeeOfSum` | primitives/src/lib.rs:132-135 | The fee of a sum is the sum of the fees or one more |
| `Pool.ValidatedIsExact` | pallets/xyk/src/lib.rs:579-795 | A validated trade is for the exact amount and within its limit |
| `Pool.ValidatedIsCovered` | pallets/xyk/src/lib.rs:579-795 | A validated trade has a pool, is at most a third of its reserve and covered by the trader's free balance |
| `Pool.SellConserves` | pallets/xyk/src/lib.rs:672-706 | A sale conserves every asset up to the burned discount and touches no reserve |
| `Pool.BuyConserves` | pallets/xyk/src/lib.rs:800-831 | So does a purchase |
| `DirectTrade.Currency.TryReserve` | pallets/exchange/src/direct.rs:287-289 | Reserving succeeds iff the amount is not frozen, and moves exactly it |
| `DirectTrade.DirectTradeData.PrepareTrade` | pallets/exchange/src/direct.rs:49-219 | Checks, reservations and listed transfers, and which reservations are not listed |
| `DirectTrade.DirectTradeData.PrepareFees` | pallets/exchange/src/direct.rs:91-216 | The fee half: both fees reserved and listed, or neither listed |
| `DirectTrade.DirectTradeData.ReservePair` | pallets/exchange/src/direct.rs:112-137 | Two reservations in order, listed only if both succeed |
| `DirectTrade.DirectTradeData.Execute` | pallets/exchange/src/direct.rs:223-242 | Every listed transfer is repatriated, in order |
| `DirectTrade.DirectTradeData.Revert` | pallets/exchange/src/direct.rs:246-250 | Every listed transfer is unreserved, in order |
| `DirectTrade.HoldAllAt` | pallets/exchange/src/direct.rs:59-72 | Per account and asset, the reserve grows by exactly the sum of the listed transfers |
| `DirectTrade.PayAllAt` | pallets/exchange/src/direct.rs:226-234 | Covered transfers are paid in full, even between an account and itself |
| `DirectTrade.ReleaseAllAt` | pallets/exchange/src/direct.rs:247-249 | Covered transfers are released in full |
| `DirectTrade.ExecuteSettles` | pallets/exchange/src/direct.rs:49-242 | A prepared trade pays every transfer in full and leaves all reserves at their earlier values, whatever happened to free balances in between |
| `DirectTrade.RevertedAt` | pallets/exchange/src/direct.rs:246-250 | Reverting undoes every listed reservation; an unlisted one stays |
| `DirectTrade.RevertRestores` | pallets/exchange/src/direct.rs:49-250 | Prepare then revert is the identity iff neither a payment nor a fee stays reserved, each said in balances before the call; always after a successful preparation; everybody's total is kept in any case |
| `DirectTrade.PreparedIsReservable` | pallets/exchange/src/direct.rs:49-219 | A preparation succeeds iff both payments and then both fees can be reserved from the balances before it |
| `DirectTrade.MovesConserve` | pallets/exchange/src/direct.rs:49-250 | Reserving, releasing and paying conserve the total of every asset |
| `Matching.SortDescends` | pallets/exchange/src/lib.rs:377-378 | Intentions are sorted by descending amount |
| `Matching.SortPermutes` | pallets/exchange/src/lib.rs:377-378 | Sorting loses and duplicates nothing |
| `Matching.SortIsStable` | pallets/exchange/src/lib.rs:377-378 | Intentions of equal amount keep their order |
| `Matching.GroupIsShortest` | pallets/exchange/src/lib.rs:387-397 | No shorter non-empty prefix reaches the main amount, sums taken modulo 2^128 as the code takes them |
| `Matching.GroupReaches` | pallets/exchange/src/lib.rs:387-397 | The group reaches the main amount or is everything, sums taken likewise |
| `ExchangePallet.PopGroup` | pallets/exchange/src/lib.rs:387-397 | The `pop` loop with its wrapping total computes the group |
| `Resolution.DirectConserves` | pallets/exchange/src/lib.rs:599-615 | A direct trade conserves every asset; success moves exactly the listed transfers and leaves reserves, failure leaves what everybody holds |
| `Resolution.PoolConserves` | pallets/exchange/src/lib.rs:694-716 | The same with the rest traded through the pool in between, up to the burned discount |
| `Resolution.AmmConserves` | pallets/exchange/src/lib.rs:411-442 | Either kind of pool trade conserves every asset up to the burned discount and touches no reserve |
| `Resolution.MatchOneExact` | pallets/exchange/src/lib.rs:552-778 | A settled matched sale spends exactly its amount and grosses its limit, a settled purchase receives exactly its amount, and the main intention is charged exactly what it gives |
| `Resolution.MatchOneConserves` | pallets/exchange/src/lib.rs:552-778 | Settled or skipped, every asset is conserved up to the burned discount |
| `Resolution.RestOfSaleChecked` | pallets/exchange/src/lib.rs:629-716 | A matched sale whose rest the pool would trade always gets its limit; the check rejects it all the same iff `SaleRejected`, and otherwise it settles iff both trades go through |
| `Resolution.SmallerSettles` | pallets/exchange/src/lib.rs:563-615 | A smaller match settles iff within its limit and reservable; exactly what is traded, and what is left of the main intention |
| `Resolution.LargerSettles` | pallets/exchange/src/lib.rs:616-716 | A larger match settles iff it covers what is wanted, its rest is validated, the wrapping check passes, and balances suffice for both trades |
| `Resolution.EqualSettles` | pallets/exchange/src/lib.rs:717-778 | An equal match settles iff within both limits and reservable, and uses the main intention up |
| `Resolution.RestTradedIff` | pallets/exchange/src/lib.rs:780-785 | The rest of a main intention, matched or not, is traded iff something is left and the pool trade is validated and executable |
| `Resolution.ExhaustedTakes` | pallets/exchange/src/lib.rs:616-704 | Exactly when a used-up main intention still takes its old amount out from a matched one |
| `Resolution.ExhaustedTakesAll` | pallets/exchange/src/lib.rs:717-778 | The same for a matched intention that wants nothing in return |
| `Resolution.MatchedIsExact` | pallets/exchange/src/lib.rs:549-779 | Every matched intention of a group has one step, and every settled one is exact |
| `Resolution.MainIsExact` | pallets/exchange/src/lib.rs:549-779 | At every step, direct spending plus what is left is the main intention's original amount |
| `Resolution.MainSaleExact` | pallets/exchange/src/lib.rs:549-785 | A main sale whose rest is traded spends exactly its amount and grosses its registered limit over the whole loop |
| `Resolution.MainStillWants` | pallets/exchange/src/lib.rs:602-608 | Until it is used up, what a main intention got and still wants add up to its original amount out if the matched intentions offer no more than that; and in any case iff it did not get more |
| `Resolution.WantedShrinks` | pallets/exchange/src/lib.rs:603-604 | One direct trade in full takes exactly its amount off what is wanted iff that much is wanted; else the subtraction wraps |
| `Resolution.FirstMatchOverfills` | pallets/exchange/src/lib.rs:563-778 | A first match brings more than was asked for iff the matched intention offers more, is not larger, is within both limits that are checked, and can be reserved |
| `Resolution.MainAccounts` | pallets/exchange/src/lib.rs:549-779 | Over the whole loop, until it is used up, what was got and is wanted add up to the amount out and a whole number of rounds of 2^128 |
| `Resolution.MainUsedUp` | pallets/exchange/src/lib.rs:616-778 | The step that uses a main intention up: all is spent; in the third scenario a sale has its limit; in the second the total received is exactly the amount out, so the limit is met iff that amount meets it |
| `Resolution.MainPurchaseExact` | pallets/exchange/src/lib.rs:549-785 | A main purchase whose rest is traded receives exactly its amount if the matched intentions offer no more, or if the asset's total fits 128 bits and they do not offer half a round more; and in any case iff the direct trades did not bring more |
| `Resolution.NeverOverfilled` | pallets/exchange/src/lib.rs:549-785 | A main purchase whose matches offer no more than it asked for never receives more, whatever settles |
| `Resolution.SingleExact` | pallets/exchange/src/lib.rs:514-543 | A single intention is traded exactly or not at all |
| `Resolution.VerifiedTrades` | pallets/exchange/src/lib.rs:459-504 | A verified intention would be traded at once iff the unfrozen balances of trader and pool suffice for discount and amounts together; with nothing frozen, iff the trader affords a discount burned from the currency it pays in |
| `Resolution.NativeSaleNotVerified` | pallets/xyk/src/lib.rs:593-601 | A discounted sale of the native asset is never verified, as no pool of an asset with itself exists |
| `Resolution.MatchConserves` | pallets/exchange/src/lib.rs:549-785 | A whole match conserves every asset up to the burned discounts |
| `ExchangePallet.Pallet.RegisterIntention` | pallets/exchange/src/lib.rs:308-334 | Appends the intention under its own pair, counts it under the ordered pair only, and keeps the storage consistent |
| `ExchangePallet.Pallet.SettleTrade` | pallets/exchange/src/lib.rs:599-615 | Prepare, then execute or revert: the new ledger is that of `Resolution.SettleDirectly`, which conserves every asset |
| `ExchangePallet.Pallet.SettleTradeAndRest` | pallets/exchange/src/lib.rs:694-716 | Prepare, pool trade, execute, or revert if either fails: the new ledger is that of `Resolution.SettleWithPool` |
| `ExchangePallet.Pallet.ResolveSmaller` | pallets/exchange/src/lib.rs:563-615 | The scenario in which the main intention has more left: updates ledger, step and main intention exactly as `Resolution.MatchSmaller`, about which exactness and conservation are proved |
| `ExchangePallet.Pallet.ResolveLarger` | pallets/exchange/src/lib.rs:616-716 | The scenario in which it has less left, with the wrapping limit difference: agrees with `Resolution.MatchLarger` on ledger, step and main intention |
| `ExchangePallet.Pallet.ResolveEqual` | pallets/exchange/src/lib.rs:717-778 | The scenario of equal amounts, checked against the limit as registered: agrees with `Resolution.MatchEqual` |
| `ExchangePallet.Pallet.ResolveSingleIntention` | pallets/exchange/src/lib.rs:514-543 | Validates and trades through the pool; a refused trade leaves the ledger as it was |
| `ExchangePallet.Pallet.ResolveMatchedIntentions` | pallets/exchange/src/lib.rs:549-785 | The loop over the group and the rest of the main intention computes `Resolution.ResolveMatched`, the subject of the exactness and conservation lemmas |
| `ExchangePallet.Pallet.ProcessExchangeIntentions` | pallets/exchange/src/lib.rs:369-406 | Sort, reverse and pop compute `Blocks.Process` |
| `ExchangePallet.Pallet.OnFinalize` | pallets/exchange/src/lib.rs:77-100 | The block is an execution in the order returned: verification, matching and trading as on the ledger met; every intention is dispatched as often as it waited iff the pairs are ordinary; totals change by exactly the burned discounts, so not at all for other assets than the native one or if nobody asked for a discount; every account's holdings change by exactly what the log says; both maps end empty |
| `Blocks.ProcessDispatchesOnce` | pallets/exchange/src/lib.rs:369-406 | Both directions are dispatched once each in sorted order, in greedy groups of what was still waiting |
| `Blocks.ProcessIsExact` | pallets/exchange/src/lib.rs:369-406 | Everything that settles in a pair is exact |
| `Blocks.ProcessConserves` | pallets/exchange/src/lib.rs:369-406 | Processing a pair changes the total of an asset by exactly the burned discounts |
| `Blocks.NothingElseBurned` | pallets/xyk/src/lib.rs:676-679 | Only the native asset is ever burned |
| `Blocks.NoDiscountNoBurn` | pallets/exchange/src/lib.rs:514-543 | A log in which nothing was asked at a discount burned nothing |
| `Statements.AmmAt` | pallets/xyk/src/lib.rs:672-831 | A pool trade moves exactly its two legs and the burned discount, for every account and asset |
| `Statements.MatchOneAt` | pallets/exchange/src/lib.rs:552-778 | What everybody holds changes by exactly the payments, fees and pool trade of a settled step, and not at all for a skipped one |
| `Statements.MatchAllAt` | pallets/exchange/src/lib.rs:549-779 | The same over all matched intentions of a group, in terms of the main intention as registered |
| `Statements.MatchAt` | pallets/exchange/src/lib.rs:549-785 | The same for a whole match with the rest of the main intention |
| `Statements.ProcessAt` | pallets/exchange/src/lib.rs:369-406 | The log of a pair accounts for every change of what any account holds of any asset |
| `Payouts.TradeGains` | pallets/exchange/src/direct.rs:74-242 | For every account and asset: what a direct trade brings, written out with its fees; reserves and frozen amounts stay |
| `Payouts.TradePays` | pallets/exchange/src/direct.rs:74-242 | With three different accounts and two assets: each side loses what it gives and gains what the other gives, sellers pay their fee out of what they get and buyers on top of what they give, and the pool gains both |
| `Payouts.MatchedSaleSpends` | pallets/exchange/src/lib.rs:552-778 | On the ledger a settled matched sale loses exactly its amount in, besides a burned discount |
| `Payouts.MatchedPurchaseReceives` | pallets/exchange/src/lib.rs:552-778 | On the ledger a settled matched purchase gains exactly its amount out, besides a burned discount |
| `Payouts.MainGivesAndGets` | pallets/exchange/src/lib.rs:552-778 | On the ledger the main trader gives what it is charged and gets what the step says, up to its fee |
| `Payouts.MainOverGroup` | pallets/exchange/src/lib.rs:549-779 | Over a whole group a main sale loses exactly what it is charged and a main purchase gains exactly what it got |
| `Payouts.MainSaleSpends` | pallets/exchange/src/lib.rs:549-785 | On the ledger a main sale whose rest is traded loses exactly its amount in, besides a burned discount |
| `Execution.ProcessExecutes` | pallets/exchange/src/lib.rs:369-406 | A main intention fails verification iff the pool would not trade it on the ledger that the entries before it left; every other entry is what matching or trading gives on that ledger; single intentions come last; and the entries lead to the final ledger |
| `Finalization.OneMorePair` | pallets/exchange/src/lib.rs:84-95 | The same over the pairs of a block, each on the ledger that the pairs before it left |
| `Finalization.OrderListsPairs` | pallets/exchange/src/lib.rs:84-95 | The order of processing lists every pair of the log once |
| `Finalization.RegisterKeepsConsistent` | pallets/exchange/src/lib.rs:317-334 | Counters of ordered pairs only, each the number of intentions waiting modulo 2^32, and every intention under its own pair: kept by registering |
| `Finalization.DispatchedExactly` | pallets/exchange/src/lib.rs:77-95 | Over all logs of the block an intention is dispatched as often as it waits; twice as often for a pair of an asset with itself; never if its pair has a multiple of 2^32 intentions |
| `Finalization.OnceEach` | pallets/exchange/src/lib.rs:77-95 | Every intention is dispatched exactly as often as it waits iff no pair of an asset with itself is waiting and no pair has a non-zero multiple of 2^32 intentions |
| `Finalization.OnlyNativeBurned` | pallets/exchange/src/lib.rs:77-100 | A block conserves every asset but the native one |
| `Finalization.NoDiscountsNoBurn` | pallets/exchange/src/lib.rs:77-100 | If no registered intention asks for a discount, a block burns nothing |
| `Findings.RefusedSlashLosesIssuance` | pallets/balances/src/lib.rs:1401-1437 | A concrete pinned account whose slash takes 15 off the issuance and 5 off the account |
| `Findings.LockOnDeadAccountIsNotEnforced` | pallets/balances/src/lib.rs:839-885 | A concrete lock on a dead account under which the account later spends below its lock |
| `ExchangeFindings.ExhaustedMainPaysNothing` | pallets/exchange/src/lib.rs:616-704 | A group of two in which the second pays 1000 to a main intention that the first has used up, and gets nothing from it |
| `ExchangeFindings.OverfilledSaleIsSkipped` | pallets/exchange/src/lib.rs:673-682 | A matched sale that would get 19075 with a limit of 5000, whose trades would both go through, and which is skipped |
| `ExchangeFindings.DiscountBurnsNative` | pallets/exchange/src/lib.rs:514-543 | A discounted sale of 10000 with a fee of 7, after which the native total is 7 smaller |
| `ExchangeFindings.VerifiedIsUnaffordable` | pallets/exchange/src/lib.rs:459-504 | A verified discounted purchase paid in native currency that cannot be executed |
| `ExchangeFindings.PurchaseIsOverfilled` | pallets/exchange/src/lib.rs:601-604 | A verified main purchase of 1000 that gets 1500 from its only match, after which its rest is not traded |
| `ExchangeFindings.SaleIsUsedUpBelowLimit` | pallets/exchange/src/lib.rs:616-704 | A verified main sale with a limit of 1500 that is used up for 1000 |
| `ExchangeFindings.FailedPreparationLeavesReserve` | pallets/exchange/src/direct.rs:59-72 | A failed preparation whose first reservation is never given back |

## Left out

- Node, command line, RPC, runtime wiring, weights, benchmarks and migrations: configuration and input/output.
- Events and logging; the order of events is not modelled.
- The dispatchables `transfer` and `transfer_keep_alive` of the balances pallet: they ask for a root and a signed origin at once, so only the `Currency` methods are modelled.
- `fungible::Unbalanced`, the public `mutate_account` with an arbitrary closure, `burn_from`, `hold`, `release`: low-level variants of what is modelled.
- That `frame_system` reads an all-zero account record as absent: the store contract keeps what was written.
- The pool's curve, liquidity operations and pool creation; orml tokens and currencies, including the native-currency route of repatriation, whose source is not part of this model.
- `sell` and `buy` of the exchange: they check balances and price and then register; registration itself is modelled.
- Intention identifiers: the hash is a plain number carried along.
- BUY limits of matched intentions: the code compares amounts of different assets (lines 589, 684, 740 and 758 of the exchange), so only exact amounts are stated for purchases.
- What a main intention receives after it is used up: it is bounded by nothing the code checks, see `ExchangeFindings.ExhaustedMainPaysNothing`.
- The holdings of the exchange ledger are unbounded numbers; the 128-bit width is written out for intention amounts, limits, fees and running totals.
- The effect of the currency swap on the native ledger before a fee is charged.
- `keccak_256` and `secp256k1_ecdsa_recover`, serialization, the literal claims table and the claims migration.
- Faucet, genesis history, asset registry, accepted currencies and authorities: simple storage updates.
- Issuance.StepKeepsEquation: stated for states in which every account fits the balance type, as the pallet assumes; outside them saturation and wrapping decide.
