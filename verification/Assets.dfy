/** The multi-asset ledger of the exchange: free and reserved balance per asset and
    account, with the operations the exchange and the pool use. Accounts exist and
    there is no existential deposit. */
module Assets {
  import opened Numbers
  import opened Sums

  type AssetId = nat

  datatype Holding = Holding(free: nat, reserved: nat, frozen: nat) {
    /** Free plus reserved, chosen by that equation rather than written as the sum, so
        that the solver does not unfold it for every holding it meets. */
    function Total(): nat { var t: nat :| t == free + reserved; t }
  }

  type Slot = (AssetId, AccountId)

  type Book = map<Slot, Holding>

  function At(b: Book, s: Slot): Holding {
    if s in b then b[s] else Holding(0, 0, 0)
  }

  // ----- operations -----

  /** Nothing, or an amount that leaves what is frozen. */
  predicate CanWithdraw(b: Book, s: Slot, n: nat) {
    n == 0 || At(b, s).free >= n + At(b, s).frozen
  }

  function Reserve(b: Book, s: Slot, n: nat): Book
    requires CanWithdraw(b, s, n)
  {
    if n == 0 then b
    else b[s := At(b, s).(free := At(b, s).free - n, reserved := At(b, s).reserved + n)]
  }

  function Unreserve(b: Book, s: Slot, n: nat): Book {
    if n == 0 then b
    else
      var actual := Min(At(b, s).reserved, n);
      b[s := At(b, s).(free := At(b, s).free + actual, reserved := At(b, s).reserved - actual)]
  }

  /** Move up to `n` from the reserve of one account to the free balance of another. */
  function Repatriate(b: Book, asset: AssetId, source: AccountId, dest: AccountId, n: nat): Book {
    if n == 0 then b
    else if source == dest then Unreserve(b, (asset, source), n)
    else
      var src, dst := At(b, (asset, source)), At(b, (asset, dest));
      var actual := Min(src.reserved, n);
      b[(asset, source) := src.(reserved := src.reserved - actual)][(asset, dest) := dst.(free := dst.free + actual)]
  }

  function Transfer(b: Book, asset: AssetId, source: AccountId, dest: AccountId, n: nat): Option<Book> {
    if n == 0 || source == dest then Some(b)
    else if !CanWithdraw(b, (asset, source), n) then None
    else
      var src, dst := At(b, (asset, source)), At(b, (asset, dest));
      Some(b[(asset, source) := src.(free := src.free - n)][(asset, dest) := dst.(free := dst.free + n)])
  }

  /** Takes the amount out of existence. */
  function Withdraw(b: Book, s: Slot, n: nat): Option<Book> {
    if n == 0 then Some(b)
    else if !CanWithdraw(b, s, n) then None
    else Some(b[s := At(b, s).(free := At(b, s).free - n)])
  }

  // ----- totals -----

  ghost function TotalsOf(b: Book, x: AssetId): map<Slot, nat> {
    map s | s in b && s.0 == x :: b[s].Total()
  }

  /** Free plus reserved of an asset over all accounts. */
  ghost function AssetTotal(b: Book, x: AssetId): nat { SumMap(TotalsOf(b, x)) }

  function Held(b: Book, s: Slot): nat { if s in b then b[s].Total() else 0 }

  lemma HeldIsTotal(b: Book, s: Slot)
    ensures At(b, s).Total() == Held(b, s)
  {
  }

  lemma FreeWithinTotal(b: Book, s: Slot)
    ensures At(b, s).free <= AssetTotal(b, s.0)
  {
    if s in b {
      SumMapBound(TotalsOf(b, s.0), s);
      assert b[s].Total() <= AssetTotal(b, s.0);
    }
  }

  lemma PutTotal(b: Book, s: Slot, h: Holding, x: AssetId)
    ensures AssetTotal(b[s := h], x) == AssetTotal(b, x) + (if s.0 == x then h.Total() - Held(b, s) else 0)
  {
    if s.0 == x {
      assert TotalsOf(b[s := h], x) == TotalsOf(b, x)[s := h.Total()];
      SumMapPut(TotalsOf(b, x), s, h.Total());
    } else {
      assert TotalsOf(b[s := h], x) == TotalsOf(b, x);
    }
  }

  lemma ReserveConserves(b: Book, s: Slot, n: nat, x: AssetId)
    requires CanWithdraw(b, s, n)
    ensures AssetTotal(Reserve(b, s, n), x) == AssetTotal(b, x)
  {
    HeldIsTotal(b, s);
    if n != 0 { PutTotal(b, s, At(b, s).(free := At(b, s).free - n, reserved := At(b, s).reserved + n), x); }
  }

  lemma UnreserveConserves(b: Book, s: Slot, n: nat, x: AssetId)
    ensures AssetTotal(Unreserve(b, s, n), x) == AssetTotal(b, x)
  {
    HeldIsTotal(b, s);
    var actual := Min(At(b, s).reserved, n);
    PutTotal(b, s, At(b, s).(free := At(b, s).free + actual, reserved := At(b, s).reserved - actual), x);
  }

  /** Two writes of one asset that cancel out. */
  lemma PutBothConserves(b: Book, s: Slot, g: Holding, t: Slot, h: Holding, x: AssetId)
    requires s != t && s.0 == t.0 && g.Total() + h.Total() == Held(b, s) + Held(b, t)
    ensures AssetTotal(b[s := g][t := h], x) == AssetTotal(b, x)
  {
    PutTotal(b, s, g, x);
    PutTotal(b[s := g], t, h, x);
    assert Held(b[s := g], t) == Held(b, t);
  }

  lemma RepatriateConserves(b: Book, asset: AssetId, source: AccountId, dest: AccountId, n: nat, x: AssetId)
    ensures AssetTotal(Repatriate(b, asset, source, dest, n), x) == AssetTotal(b, x)
  {
    if source == dest {
      UnreserveConserves(b, (asset, source), n, x);
    } else if n != 0 {
      RepatriateApart(b, (asset, source), (asset, dest), n, x);
    }
  }

  lemma RepatriateApart(b: Book, s: Slot, t: Slot, n: nat, x: AssetId)
    requires s != t && s.0 == t.0
    ensures var actual := Min(At(b, s).reserved, n);
            AssetTotal(b[s := At(b, s).(reserved := At(b, s).reserved - actual)]
                        [t := At(b, t).(free := At(b, t).free + actual)], x) == AssetTotal(b, x)
  {
    HeldIsTotal(b, s);
    HeldIsTotal(b, t);
    var actual := Min(At(b, s).reserved, n);
    PutBothConserves(b, s, At(b, s).(reserved := At(b, s).reserved - actual),
                     t, At(b, t).(free := At(b, t).free + actual), x);
  }

  lemma TransferConserves(b: Book, asset: AssetId, source: AccountId, dest: AccountId, n: nat, x: AssetId)
    requires Transfer(b, asset, source, dest, n).Some?
    ensures AssetTotal(Transfer(b, asset, source, dest, n).value, x) == AssetTotal(b, x)
  {
    var s, t := (asset, source), (asset, dest);
    HeldIsTotal(b, s);
    HeldIsTotal(b, t);
    if n != 0 && source != dest {
      PutBothConserves(b, s, At(b, s).(free := At(b, s).free - n), t, At(b, t).(free := At(b, t).free + n), x);
    }
  }

  lemma WithdrawBurns(b: Book, s: Slot, n: nat, x: AssetId)
    requires Withdraw(b, s, n).Some?
    ensures AssetTotal(Withdraw(b, s, n).value, x) + (if s.0 == x then n else 0) == AssetTotal(b, x)
  {
    HeldIsTotal(b, s);
    if n != 0 { PutTotal(b, s, At(b, s).(free := At(b, s).free - n), x); }
  }

  /** Reserved balances agree everywhere. */
  ghost predicate SameReserved(b: Book, c: Book) {
    forall s: Slot :: At(b, s).reserved == At(c, s).reserved
  }
}
