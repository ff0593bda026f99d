/** 128-bit unsigned arithmetic as the runtime performs it, and the small
    result types shared by every pallet. */
module Numbers {

  const MAX: int := 0xFFFF_FFFF_FFFF_FFFF_FFFF_FFFF_FFFF_FFFF

  /** `u128`. */
  type Balance = x: nat | x <= MAX

  type AccountId = nat

  datatype Option<+T> = None | Some(value: T)

  function Min(a: int, b: int): int { if a <= b then a else b }

  function Max(a: int, b: int): int { if a >= b then a else b }

  /** `saturating_sub`. */
  function SatSub(a: nat, b: nat): (r: nat)
    ensures r <= a
  {
    if b <= a then a - b else 0
  }

  /** `saturating_add`. */
  function SatAdd(a: nat, b: nat): (r: Balance) {
    if a + b <= MAX then a + b else MAX
  }

  /** Plain `+` in a release build: it wraps. */
  function WrapAdd(a: Balance, b: Balance): (r: Balance) {
    if a + b <= MAX then a + b else a + b - MAX - 1
  }

  /** Plain `-` in a release build: it wraps. */
  function WrapSub(a: Balance, b: Balance): (r: Balance) {
    if b <= a then a - b else a - b + MAX + 1
  }

  /** A number cut down to 128 bits. */
  function Wrapped(x: nat): (r: Balance) { x % (MAX + 1) }

  /** Wrapping additions one after the other are one sum, wrapped at the end. */
  lemma WrapAddOfWrapped(x: nat, b: Balance)
    ensures WrapAdd(Wrapped(x), b) == Wrapped(x + b)
  {
    var q := x / (MAX + 1);
    assert x == q * (MAX + 1) + Wrapped(x);
    if Wrapped(x) + b <= MAX {
      WrappedIs(x + b, q, Wrapped(x) + b);
    } else {
      WrappedIs(x + b, q + 1, Wrapped(x) + b - MAX - 1);
    }
  }

  lemma WrappedIs(x: nat, q: nat, r: nat)
    requires r <= MAX && x == q * (MAX + 1) + r
    ensures Wrapped(x) == r
  {
  }
}
