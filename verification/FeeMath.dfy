/** Fee arithmetic on 128-bit balances. */
module FeeMath {
  import opened Numbers

  type U32 = x: nat | x < 0x1_0000_0000

  datatype Fee = Fee(numerator: U32, denominator: U32)

  const DEFAULT_FEE := Fee(2, 1000)
  const DISCOUNTED_FEE := Fee(7, 10000)

  /** `checked_mul` followed by `checked_div`. */
  function MulDiv(x: Balance, m: nat, d: nat): Option<Balance> {
    if x * m <= MAX && d != 0 then
      DivBound(x * m, d);
      Some((x * m) / d)
    else None
  }

  function WithFee(x: Balance, fee: Fee): Option<Balance> {
    MulDiv(x, fee.denominator + fee.numerator, fee.denominator)
  }

  function WithoutFee(x: Balance, fee: Fee): Option<Balance> {
    MulDiv(x, fee.denominator, fee.denominator + fee.numerator)
  }

  function JustFee(x: Balance, fee: Fee): Option<Balance> {
    MulDiv(x, fee.numerator, fee.denominator)
  }

  // ----- division -----

  lemma MulMonotone(a: int, b: int, c: nat)
    requires a <= b
    ensures a * c <= b * c
  {
    assert b * c == a * c + (b - a) * c;
    assert (b - a) * c >= 0;
  }

  lemma DivBound(a: nat, b: nat)
    requires b > 0
    ensures 0 <= a / b <= a
  {
    MulMonotone(1, b, a / b);
  }

  /** The quotient is the only number that fits. */
  lemma QuotientIs(a: nat, b: nat, q: int)
    requires b > 0 && q * b <= a < q * b + b
    ensures a / b == q
  {
    var p := a / b;
    assert p * b <= a < p * b + b;
    if p < q { MulMonotone(p + 1, q, b); }
    if q < p { MulMonotone(q + 1, p, b); }
  }

  lemma QuotientOfSum(a: nat, b: nat, d: nat)
    requires d > 0
    ensures (a + b) / d == a / d + b / d + (if a % d + b % d < d then 0 else 1)
  {
    var p, q := a / d, b / d;
    assert (p + q) * d == p * d + q * d;
    assert (p + q + 1) * d == p * d + q * d + d;
    QuotientIs(a + b, d, if a % d + b % d < d then p + q else p + q + 1);
  }

  /** Adding `x*n/d` to `x` and scaling back by `d/(d+n)`. */
  lemma ScaleBack(x: nat, n: nat, d: nat)
    requires d > 0
    ensures (x + (x * n) / d) * d <= x * (d + n)
    ensures ((x + (x * n) / d) * d) / (d + n) == if (x * n) % d == 0 then x else x - 1
  {
    var q, r := (x * n) / d, (x * n) % d;
    assert x * (d + n) == x * d + x * n;
    assert (x + q) * d == x * d + q * d == x * (d + n) - r;
    assert (x - 1) * (d + n) == x * (d + n) - (d + n);
    assert (x + q) * d >= 0;
    QuotientIs((x + q) * d, d + n, if r == 0 then x else x - 1);
  }

  // ----- laws -----

  /** The fee is the share of the amount, rounded down; it is not computed at all if the
      product overflows or the fee has no denominator. */
  lemma JustFeeIsFloor(x: Balance, fee: Fee)
    ensures JustFee(x, fee).None? <==> x * fee.numerator > MAX || fee.denominator == 0
    ensures JustFee(x, fee).Some? ==>
              var f := JustFee(x, fee).value;
              f * fee.denominator <= x * fee.numerator < (f + 1) * fee.denominator
  {
    if JustFee(x, fee).Some? {
      var n, d := x * fee.numerator, fee.denominator;
      assert n == (n / d) * d + n % d;
      assert (n / d + 1) * d == (n / d) * d + d;
    }
  }

  /** Taking a fee off is dividing by one plus its share, rounded down. */
  lemma WithoutFeeIsFloor(x: Balance, fee: Fee)
    ensures WithoutFee(x, fee).None? <==> x * fee.denominator > MAX || fee.denominator + fee.numerator == 0
    ensures WithoutFee(x, fee).Some? ==>
              var n := WithoutFee(x, fee).value;
              n * (fee.denominator + fee.numerator) <= x * fee.denominator < (n + 1) * (fee.denominator + fee.numerator)
  {
    if WithoutFee(x, fee).Some? {
      var n, d := x * fee.denominator, fee.denominator + fee.numerator;
      assert n == (n / d) * d + n % d;
      assert (n / d + 1) * d == (n / d) * d + d;
    }
  }

  /** Scaling up by `(d + n) / d` adds `n / d` of the amount. */
  lemma ScaleUp(x: nat, n: nat, d: nat)
    requires d > 0
    ensures x * (d + n) == x * d + x * n && (x * (d + n)) / d == x + (x * n) / d && 0 <= x * d
  {
    assert x * (d + n) == x * d + x * n;
    MulMonotone(0, x, d);
    QuotientOfSum(x * d, x * n, d);
    QuotientIs(x * d, d, x);
  }

  /** The fee is added on top of the amount. */
  lemma WithFeeAddsJustFee(x: Balance, fee: Fee)
    requires WithFee(x, fee).Some?
    ensures JustFee(x, fee).Some?
    ensures WithFee(x, fee).value == x + JustFee(x, fee).value
  {
    ScaleUp(x, fee.numerator, fee.denominator);
  }

  /** Taking the fee off again loses one unit exactly when the fee was rounded,
      and the second computation never overflows if the first did not. */
  lemma WithoutFeeInverts(x: Balance, fee: Fee)
    requires WithFee(x, fee).Some?
    ensures WithoutFee(WithFee(x, fee).value, fee) ==
            Some(if (x * fee.numerator) % fee.denominator == 0 then x else x - 1)
  {
    WithFeeAddsJustFee(x, fee);
    ScaleBack(x, fee.numerator, fee.denominator);
  }

  /** Splitting an amount costs at most one unit of fee, and never raises it. */
  lemma JustFeeOfSum(x: Balance, y: Balance, fee: Fee)
    requires x + y <= MAX && JustFee(x + y, fee).Some?
    ensures JustFee(x, fee).Some? && JustFee(y, fee).Some?
    ensures JustFee(x, fee).value + JustFee(y, fee).value <= JustFee(x + y, fee).value
    ensures JustFee(x + y, fee).value <= JustFee(x, fee).value + JustFee(y, fee).value + 1
  {
    var n: nat, d: nat := fee.numerator, fee.denominator;
    assert (x + y) * n == x * n + y * n;
    MulMonotone(0, x, n);
    MulMonotone(0, y, n);
    QuotientOfSum(x * n, y * n, d);
  }
}
