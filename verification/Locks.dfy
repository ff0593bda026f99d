/** Balance locks: the list kept per account, the map it stands for, and the
    two frozen amounts derived from it. */
module Locks {
  import opened Numbers

  /** Simplified reasons for withdrawing balance. */
  datatype Reasons = Fee | Misc | All {
    /** `BitOr`: two different reasons together are every reason. */
    function Or(other: Reasons): Reasons {
      if this == other then this else All
    }

    predicate Overlaps(other: Reasons) {
      this == other || this == All || other == All
    }
  }

  /** The flags of `WithdrawReasons`. */
  datatype WithdrawReason = TransactionPayment | ForTransfer | ForReserve | ForFee | ForTip

  function ToReasons(r: set<WithdrawReason>): Reasons {
    if r == {TransactionPayment} then Fee
    else if TransactionPayment in r then All
    else Misc
  }

  type LockId = nat

  datatype BalanceLock = BalanceLock(id: LockId, amount: Balance, reasons: Reasons) {
    /** The lock left by extending this one with `k`. */
    function Extend(k: BalanceLock): BalanceLock {
      BalanceLock(id, Max(amount, k.amount), reasons.Or(k.reasons))
    }

    predicate Freezes(r: Reasons) {
      reasons == All || reasons == r
    }
  }

  // ----- the list -----

  function Remove(ls: seq<BalanceLock>, id: LockId): seq<BalanceLock> {
    if ls == [] then []
    else if ls[0].id == id then Remove(ls[1..], id)
    else [ls[0]] + Remove(ls[1..], id)
  }

  /** Put `k` in the place of the first lock with its id, drop later ones, and
      append `k` if there is none. */
  function Upsert(ls: seq<BalanceLock>, k: BalanceLock, extend: bool): seq<BalanceLock> {
    if ls == [] then [k]
    else if ls[0].id == k.id then [if extend then ls[0].Extend(k) else k] + Remove(ls[1..], k.id)
    else [ls[0]] + Upsert(ls[1..], k, extend)
  }

  /** The largest amount among the locks that freeze withdrawals for `r`. */
  function FrozenBy(ls: seq<BalanceLock>, r: Reasons): Balance {
    if ls == [] then 0
    else
      var l := ls[|ls| - 1];
      var rest := FrozenBy(ls[..|ls| - 1], r);
      if l.Freezes(r) then Max(rest, l.amount) else rest
  }

  // ----- the map the list stands for -----

  function ById(ls: seq<BalanceLock>): map<LockId, BalanceLock> {
    if ls == [] then map[] else ById(ls[1..])[ls[0].id := ls[0]]
  }

  /** No id occurs twice. */
  predicate UniqueIds(ls: seq<BalanceLock>) {
    ls != [] ==> ls[0].id !in ById(ls[1..]) && UniqueIds(ls[1..])
  }

  lemma {:induction false} ByIdMembers(ls: seq<BalanceLock>)
    ensures forall l :: l in ls ==> l.id in ById(ls)
    ensures forall id :: id in ById(ls) ==> ById(ls)[id] in ls && ById(ls)[id].id == id
    ensures UniqueIds(ls) ==> forall l :: l in ls ==> ById(ls)[l.id] == l
  {
    if ls == [] {
    } else {
      ByIdMembers(ls[1..]);
      assert ls == [ls[0]] + ls[1..];
    }
  }

  /** Uniqueness read off the positions of the list. */
  lemma {:induction false} UniqueByPosition(ls: seq<BalanceLock>, i: nat, j: nat)
    requires UniqueIds(ls) && i < j < |ls|
    ensures ls[i].id != ls[j].id
  {
    if i == 0 {
      ByIdMembers(ls[1..]);
      assert ls[j] == ls[1..][j - 1];
      assert ls[j] in ls[1..];
    } else {
      UniqueByPosition(ls[1..], i - 1, j - 1);
    }
  }

  /** `remove_lock` on the list is removal from the map. */
  lemma {:induction false} RemoveRefines(ls: seq<BalanceLock>, id: LockId)
    ensures ById(Remove(ls, id)) == ById(ls) - {id}
    ensures UniqueIds(ls) ==> UniqueIds(Remove(ls, id))
  {
    if ls == [] {
    } else {
      RemoveRefines(ls[1..], id);
      if ls[0].id != id {
        assert Remove(ls, id)[1..] == Remove(ls[1..], id);
      }
    }
  }

  /** The lock that ends up under the id of `k`. */
  function Resulting(m: map<LockId, BalanceLock>, k: BalanceLock, extend: bool): BalanceLock {
    if extend && k.id in m then m[k.id].Extend(k) else k
  }

  /** `set_lock` and `extend_lock` on the list are one update of the map. */
  lemma {:induction false} UpsertRefines(ls: seq<BalanceLock>, k: BalanceLock, extend: bool)
    requires UniqueIds(ls)
    ensures ById(Upsert(ls, k, extend)) == ById(ls)[k.id := Resulting(ById(ls), k, extend)]
    ensures UniqueIds(Upsert(ls, k, extend))
  {
    if ls == [] {
      assert [k][1..] == [];
    } else if ls[0].id == k.id {
      UpsertAtHead(ls, k, extend);
    } else {
      UpsertRefines(ls[1..], k, extend);
      UpsertBehind(ls, k, extend);
    }
  }

  lemma UpsertAtHead(ls: seq<BalanceLock>, k: BalanceLock, extend: bool)
    requires ls != [] && UniqueIds(ls) && ls[0].id == k.id
    ensures ById(Upsert(ls, k, extend)) == ById(ls)[k.id := Resulting(ById(ls), k, extend)]
    ensures UniqueIds(Upsert(ls, k, extend))
  {
    RemoveRefines(ls[1..], k.id);
    assert Upsert(ls, k, extend)[1..] == Remove(ls[1..], k.id);
  }

  lemma UpsertBehind(ls: seq<BalanceLock>, k: BalanceLock, extend: bool)
    requires ls != [] && UniqueIds(ls) && ls[0].id != k.id
    requires ById(Upsert(ls[1..], k, extend)) == ById(ls[1..])[k.id := Resulting(ById(ls[1..]), k, extend)]
    requires UniqueIds(Upsert(ls[1..], k, extend))
    ensures ById(Upsert(ls, k, extend)) == ById(ls)[k.id := Resulting(ById(ls), k, extend)]
    ensures UniqueIds(Upsert(ls, k, extend))
  {
    assert Upsert(ls, k, extend)[1..] == Upsert(ls[1..], k, extend);
    assert Resulting(ById(ls), k, extend) == Resulting(ById(ls[1..]), k, extend);
  }

  // ----- the frozen amounts -----

  /** `FrozenBy` is the maximum: an upper bound that is attained, or zero. */
  lemma {:induction false} FrozenByIsMaximum(ls: seq<BalanceLock>, r: Reasons)
    ensures forall l :: l in ls && l.Freezes(r) ==> l.amount <= FrozenBy(ls, r)
    ensures FrozenBy(ls, r) == 0 || exists l :: l in ls && l.Freezes(r) && l.amount == FrozenBy(ls, r)
  {
    if ls == [] {
    } else {
      var n := |ls| - 1;
      FrozenByIsMaximum(ls[..n], r);
      assert ls == ls[..n] + [ls[n]];
      assert ls[n] in ls;
    }
  }

  /** Every lock of the list lives on, possibly stronger, after an extension. */
  lemma ExtendDominates(ls: seq<BalanceLock>, k: BalanceLock, l: BalanceLock, r: Reasons)
    requires UniqueIds(ls) && l in ls && l.Freezes(r)
    ensures exists m :: m in Upsert(ls, k, true) && m.Freezes(r) && l.amount <= m.amount
  {
    UpsertRefines(ls, k, true);
    ByIdMembers(ls);
    ByIdMembers(Upsert(ls, k, true));
    var m := ById(Upsert(ls, k, true))[l.id];
    assert m in Upsert(ls, k, true);
  }

  /** `extend_lock` never lowers a frozen amount. */
  lemma ExtendNeverLowers(ls: seq<BalanceLock>, k: BalanceLock, r: Reasons)
    requires UniqueIds(ls)
    ensures FrozenBy(ls, r) <= FrozenBy(Upsert(ls, k, true), r)
  {
    FrozenByIsMaximum(ls, r);
    FrozenByIsMaximum(Upsert(ls, k, true), r);
    if FrozenBy(ls, r) != 0 {
      var l :| l in ls && l.Freezes(r) && l.amount == FrozenBy(ls, r);
      ExtendDominates(ls, k, l, r);
    }
  }

  /** Extending twice with the same lock is extending once. */
  lemma {:induction false} ExtendIdempotent(ls: seq<BalanceLock>, k: BalanceLock)
    ensures Upsert(Upsert(ls, k, true), k, true) == Upsert(ls, k, true)
  {
    if ls == [] {
    } else {
      var up := Upsert(ls, k, true);
      if ls[0].id == k.id {
        RemoveTwice(ls[1..], k.id);
        assert up[1..] == Remove(ls[1..], k.id);
        assert ls[0].Extend(k).Extend(k) == ls[0].Extend(k);
      } else {
        ExtendIdempotent(ls[1..], k);
        assert up[1..] == Upsert(ls[1..], k, true);
      }
    }
  }

  lemma {:induction false} RemoveTwice(ls: seq<BalanceLock>, id: LockId)
    ensures Remove(Remove(ls, id), id) == Remove(ls, id)
  {
    if ls == [] {
    } else {
      RemoveTwice(ls[1..], id);
      assert ls[0].id != id ==> Remove(ls, id)[1..] == Remove(ls[1..], id);
    }
  }

  /** A lock on the list that overlaps `r` is below the amount frozen for `r`,
      with the joint reason read as the larger of the two cached amounts. */
  lemma OverlapIsFrozen(ls: seq<BalanceLock>, l: BalanceLock, r: Reasons)
    requires l in ls && l.reasons.Overlaps(r)
    ensures r != All ==> l.amount <= FrozenBy(ls, r)
    ensures r == All ==> l.amount <= Max(FrozenBy(ls, Misc), FrozenBy(ls, Fee))
  {
    FrozenByIsMaximum(ls, Misc);
    FrozenByIsMaximum(ls, Fee);
  }
}
