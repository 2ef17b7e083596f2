/** Rust machine-integer semantics used by the subgroup gadgets. */
module MachineInt {
  import opened Wrappers
  import Modular

  const TWO_63: int := 0x8000_0000_0000_0000
  const TWO_64: int := 0x1_0000_0000_0000_0000
  const TWO_128: int := 0x1_0000_0000_0000_0000_0000_0000_0000_0000
  const TWO_256: int := TWO_128 * TWO_128

  /** `x as i64` for a `u64` x: two's-complement reinterpretation of the 64 bits. */
  function AsI64(x: nat): (k: int)
    requires x < TWO_64
    ensures -TWO_63 <= k < TWO_63
    ensures (x - k) % TWO_64 == 0
    ensures k == x <==> x < TWO_63
  {
    if x < TWO_63 then x else x - TWO_64
  }

  /**
   * `a * b` on the unsigned type whose values are the naturals below `bound`
   * (2^128 for `u128`), under Rust's overflow checks: `None` is the overflow panic.
   */
  function MulChecked(bound: nat, a: nat, b: nat): (m: Option<nat>)
    requires a < bound && b < bound
    ensures m.Some? <==> a * b < bound
    ensures m.Some? ==> m.value == a * b
  {
    if a * b < bound then Some(a * b) else None
  }

  /** `6 * x * x` on that type, evaluated left to right; the first product must fit before the second is taken. */
  function SixXSquared(bound: nat, x: nat): (l: Option<nat>)
    requires 6 < bound && x < bound
  {
    var sixX := MulChecked(bound, 6, x);
    if sixX.None? then None else MulChecked(bound, sixX.value, x)
  }

  /** The left-to-right evaluation panics exactly when the mathematical value 6 * x^2 does not fit. */
  lemma SixXSquaredExact(bound: nat, x: nat)
    requires 6 < bound && x < bound
    ensures SixXSquared(bound, x).Some? <==> 6 * x * x < bound
    ensures SixXSquared(bound, x).Some? ==> SixXSquared(bound, x).value == 6 * x * x
  {
    if x > 0 {
      assert 6 * x <= 6 * x * x;
    }
  }

  /**
   * `a * b` on that type in a build without overflow checks: the product wraps
   * around, keeping its residue modulo `bound`, and is exact when it fits.
   */
  function MulWrapping(bound: nat, a: nat, b: nat): (m: nat)
    requires a < bound && b < bound
    ensures m < bound && (m - a * b) % bound == 0
    ensures a * b < bound ==> m == a * b
  {
    Modular.ReduceCongruent(a * b, bound);
    if a * b < bound then
      Modular.UniqueRemainder(a * b, 0, a * b, bound);
      (a * b) % bound
    else
      (a * b) % bound
  }

  /** `6 * x * x` evaluated left to right with wrapping products: 6 * x^2 modulo `bound`. */
  function SixXSquaredWrapping(bound: nat, x: nat): (m: nat)
    requires 6 < bound && x < bound
    ensures m < bound && m == (6 * x * x) % bound
  {
    Modular.MulMod(6 * x, x, bound);
    MulWrapping(bound, MulWrapping(bound, 6, x), x)
  }
}
