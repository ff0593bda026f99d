/** The order in which intentions are matched, and how much of the other side one
    intention is given. */
module Matching {
  import opened Numbers
  import opened DirectTrade

  // ----- stable sort, largest amount first -----

  /** Put `x` behind everything that is at least as large. */
  function Insert(s: seq<Intention>, x: Intention): seq<Intention> {
    if s == [] then [x]
    else if s[0].amountIn < x.amountIn then [x] + s
    else [s[0]] + Insert(s[1..], x)
  }

  function SortDescending(s: seq<Intention>): seq<Intention> {
    if s == [] then [] else Insert(SortDescending(s[..|s| - 1]), s[|s| - 1])
  }

  ghost predicate Descending(s: seq<Intention>) {
    forall i, j :: 0 <= i < j < |s| ==> s[i].amountIn >= s[j].amountIn
  }

  /** The intentions of one amount, in order. */
  function OfAmount(s: seq<Intention>, v: Balance): seq<Intention> {
    if s == [] then []
    else if s[0].amountIn == v then [s[0]] + OfAmount(s[1..], v)
    else OfAmount(s[1..], v)
  }

  lemma {:induction false} OfAmountOneMore(s: seq<Intention>, x: Intention, v: Balance)
    ensures OfAmount(s + [x], v) == if x.amountIn == v then OfAmount(s, v) + [x] else OfAmount(s, v)
  {
    if s == [] {
      assert [] + [x] == [x] && [x][1..] == [];
    } else {
      assert (s + [x])[0] == s[0] && (s + [x])[1..] == s[1..] + [x];
      OfAmountOneMore(s[1..], x, v);
      assert [s[0]] + (OfAmount(s[1..], v) + [x]) == [s[0]] + OfAmount(s[1..], v) + [x];
    }
  }

  /** Nothing of a larger amount is in a descending list that starts lower. */
  lemma {:induction false} OfAmountNone(s: seq<Intention>, v: Balance)
    requires forall i :: 0 <= i < |s| ==> s[i].amountIn < v
    ensures OfAmount(s, v) == []
  {
    if s == [] {
    } else {
      OfAmountNone(s[1..], v);
    }
  }

  lemma {:induction false} InsertPermutes(s: seq<Intention>, x: Intention)
    ensures multiset(Insert(s, x)) == multiset(s) + multiset{x}
  {
    if s == [] {
    } else {
      assert s == [s[0]] + s[1..];
      InsertPermutes(s[1..], x);
    }
  }

  /** No entry of a larger amount comes out of inserting a smaller one. */
  lemma {:induction false} InsertBounded(s: seq<Intention>, x: Intention, v: Balance)
    requires x.amountIn <= v && forall i :: 0 <= i < |s| ==> s[i].amountIn <= v
    ensures forall i :: 0 <= i < |Insert(s, x)| ==> Insert(s, x)[i].amountIn <= v
  {
    if s == [] {
    } else {
      InsertBounded(s[1..], x, v);
    }
  }

  lemma {:induction false} InsertSorts(s: seq<Intention>, x: Intention)
    requires Descending(s)
    ensures Descending(Insert(s, x))
  {
    if s != [] && s[0].amountIn >= x.amountIn {
      InsertSorts(s[1..], x);
      InsertBounded(s[1..], x, s[0].amountIn);
    }
  }

  lemma {:induction false} InsertIsStable(s: seq<Intention>, x: Intention, v: Balance)
    requires Descending(s)
    ensures OfAmount(Insert(s, x), v) == if x.amountIn == v then OfAmount(s, v) + [x] else OfAmount(s, v)
  {
    if s == [] {
      assert [x][1..] == [];
    } else if s[0].amountIn < x.amountIn {
      assert ([x] + s)[1..] == s;
      if v == x.amountIn { OfAmountNone(s, v); }
    } else {
      InsertIsStable(s[1..], x, v);
      assert Insert(s, x)[1..] == Insert(s[1..], x);
      assert [s[0]] + (OfAmount(s[1..], v) + [x]) == [s[0]] + OfAmount(s[1..], v) + [x];
    }
  }

  lemma {:induction false} SortDescends(s: seq<Intention>)
    ensures Descending(SortDescending(s))
  {
    if s == [] {
    } else {
      SortDescends(s[..|s| - 1]);
      InsertSorts(SortDescending(s[..|s| - 1]), s[|s| - 1]);
    }
  }

  lemma {:induction false} SortPermutes(s: seq<Intention>)
    ensures multiset(SortDescending(s)) == multiset(s)
  {
    if s == [] {
    } else {
      var front, x := s[..|s| - 1], s[|s| - 1];
      assert s == front + [x];
      assert multiset(s) == multiset(front) + multiset{x};
      SortPermutes(front);
      InsertPermutes(SortDescending(front), x);
    }
  }

  /** Intentions of equal amount keep their order. */
  lemma {:induction false} SortIsStable(s: seq<Intention>, v: Balance)
    ensures OfAmount(SortDescending(s), v) == OfAmount(s, v)
  {
    if s == [] {
    } else {
      var front, x := s[..|s| - 1], s[|s| - 1];
      SortDescends(front);
      SortIsStable(front, v);
      InsertIsStable(SortDescending(front), x, v);
      OfAmountOneMore(front, x, v);
      assert s == front + [x];
    }
  }

  // ----- groups -----

  /** How many of `bs` are taken, starting from a running total that wraps. */
  function GroupLength(bs: seq<Intention>, total: Balance, target: Balance): nat
    ensures GroupLength(bs, total, target) <= |bs|
  {
    if bs == [] then 0
    else
      var t := WrapAdd(total, bs[0].amountIn);
      if t >= target then 1 else 1 + GroupLength(bs[1..], t, target)
  }

  /** The intentions matched with one that wants `target`. */
  function Group(bs: seq<Intention>, target: Balance): seq<Intention> {
    bs[..GroupLength(bs, 0, target)]
  }

  function SumIn(bs: seq<Intention>): nat {
    if bs == [] then 0 else bs[0].amountIn + SumIn(bs[1..])
  }

  lemma {:induction false} SumInOneMore(bs: seq<Intention>)
    requires bs != []
    ensures SumIn(bs) == SumIn(bs[..|bs| - 1]) + bs[|bs| - 1].amountIn
  {
    if |bs| == 1 {
      assert bs[1..] == [] && bs[..0] == [];
    } else {
      SumInOneMore(bs[1..]);
      assert bs[1..][..|bs| - 2] == bs[..|bs| - 1][1..];
    }
  }

  /** The first `k` intentions on top of a running total reach the target. */
  predicate Reaches(bs: seq<Intention>, k: nat, total: nat, target: Balance) {
    0 < k <= |bs| && Wrapped(total + SumIn(bs[..k])) >= target
  }

  lemma SumInPrefix(bs: seq<Intention>, j: nat)
    requires 0 < j <= |bs|
    ensures SumIn(bs[..j]) == bs[0].amountIn + SumIn(bs[1..][..j - 1])
  {
    assert bs[..j][1..] == bs[1..][..j - 1];
  }

  /** No shorter non-empty prefix reaches the target. The sums are compared as the
      code sees them, cut down to 128 bits. */
  lemma {:induction false} GroupIsShortest(bs: seq<Intention>, total: nat, target: Balance, j: nat)
    requires 0 < j < GroupLength(bs, Wrapped(total), target)
    ensures Wrapped(total + SumIn(bs[..j])) < target
  {
    WrapAddOfWrapped(total, bs[0].amountIn);
    SumInPrefix(bs, j);
    if j == 1 {
      assert bs[1..][..0] == [];
    } else {
      GroupIsShortest(bs[1..], total + bs[0].amountIn, target, j - 1);
    }
  }

  /** One more intention in front counts towards the running total instead. */
  lemma ReachesOneMore(bs: seq<Intention>, k: nat, total: nat, target: Balance)
    requires bs != [] && Reaches(bs[1..], k, total + bs[0].amountIn, target)
    ensures Reaches(bs, k + 1, total, target)
  {
    SumInPrefix(bs, k + 1);
  }

  lemma ReachesAtOnce(bs: seq<Intention>, total: nat, target: Balance)
    requires bs != [] && Wrapped(total + bs[0].amountIn) >= target
    ensures Reaches(bs, 1, total, target)
  {
    SumInPrefix(bs, 1);
    assert bs[1..][..0] == [];
  }

  /** The group reaches the target, or is everything. */
  lemma {:induction false} GroupReaches(bs: seq<Intention>, total: nat, target: Balance)
    ensures GroupLength(bs, Wrapped(total), target) == |bs| || Reaches(bs, GroupLength(bs, Wrapped(total), target), total, target)
  {
    if bs == [] {
    } else {
      var more := total + bs[0].amountIn;
      var k := GroupLength(bs[1..], Wrapped(more), target);
      assert GroupLength(bs, Wrapped(total), target) == if Wrapped(more) >= target then 1 else 1 + k by {
        WrapAddOfWrapped(total, bs[0].amountIn);
      }
      if Wrapped(more) >= target {
        ReachesAtOnce(bs, total, target);
      } else {
        GroupReaches(bs[1..], more, target);
        if k != |bs[1..]| { ReachesOneMore(bs, k, total, target); }
      }
    }
  }
}
