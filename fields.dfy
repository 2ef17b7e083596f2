/**
 * Abstract contracts of the Fp / Fp2 chip operations the BLS gadgets call.
 * An Fp value is an integer (a no-carry result may be unreduced); an Fp2 value
 * a0 + a1*u, with u^2 = -1, is the coefficient vector [a0, a1].
 */
module Fields {
  import Modular
  import opened Wrappers

  /** An Fp2 element: exactly two coefficients, c0 then c1. */
  type Fq2 = v: seq<int> | |v| == 2 witness [0, 0]

  /** The failures of the `assert_eq!` guards of `Fp2Chip::frobenius_map`. */
  datatype FrobeniusError =
    | ModulusNot3Mod4
    | ModulusNot1Mod6
    | WrongCoefficientCount(count: nat)

  /** Every coefficient is the canonical representative modulo p. */
  ghost predicate IsReduced(p: int, v: seq<int>)
    requires p > 1
  {
    forall i :: 0 <= i < |v| ==> 0 <= v[i] < p
  }

  /** `Fp2Chip::conjugate`: coefficient 0 kept, coefficient 1 negated modulo p. */
  function Conjugate(p: int, a: Fq2): (c: Fq2)
    requires p > 1
    ensures c[0] == a[0]
    ensures 0 <= c[1] < p && (c[1] + a[1]) % p == 0
  {
    [a[0], Modular.Neg(p, a[1])]
  }

  /** Conjugation is an involution on reduced elements. */
  lemma ConjugateInvolutive(p: int, a: Fq2)
    requires p > 1 && IsReduced(p, a)
    ensures IsReduced(p, Conjugate(p, a))
    ensures Conjugate(p, Conjugate(p, a)) == a
  {
    var x := a[1];
    if x == 0 {
      Modular.UniqueRemainder(-x, 0, 0, p);
      assert Conjugate(p, a)[1] == 0;
    } else {
      Modular.UniqueRemainder(-x, -1, p - x, p);
      assert Conjugate(p, a)[1] == p - x;
      Modular.UniqueRemainder(-(p - x), -1, x, p);
    }
  }

  /** The chips' coefficient-wise `negate` (FpChip negate on every coefficient), on a vector of any length. */
  function NegateCoeffs(p: int, v: seq<int>): (n: seq<int>)
    requires p > 1
    ensures |n| == |v| && IsReduced(p, n)
    ensures forall i :: 0 <= i < |v| ==> (n[i] + v[i]) % p == 0
  {
    seq(|v|, i requires 0 <= i < |v| => Modular.Neg(p, v[i]))
  }

  /**
   * The native `Neg` of `Fq` in halo2curves, on the element x stands for: zero
   * stays zero and any other residue v becomes p - v.
   */
  function FqNeg(p: int, x: int): (n: int)
    requires p > 1
    ensures 0 <= n < p && (n + x) % p == 0
  {
    var q, v := x / p, x % p;
    assert x == q * p + v;
    if v == 0 then
      0
    else
      assert p - v + x == (q + 1) * p + 0;
      Modular.UniqueRemainder(p - v + x, q + 1, 0, p);
      p - v
  }

  /** The native `Neg` of `Fq2` in halo2curves: the native negation of both coefficients. */
  function NegateNative(p: int, a: Fq2): (n: Fq2)
    requires p > 1
    ensures IsReduced(p, n)
    ensures forall i :: 0 <= i < 2 ==> (n[i] + a[i]) % p == 0
  {
    [FqNeg(p, a[0]), FqNeg(p, a[1])]
  }

  /**
   * The native negation (p - v, or 0) and the chips' negation ((-x) mod p) are
   * two formulas for the same canonical inverse.
   */
  lemma NegateRoutesAgree(p: int, a: Fq2)
    requires p > 1
    ensures NegateNative(p, a) == NegateCoeffs(p, a)
  {
    var n, c := NegateNative(p, a), NegateCoeffs(p, a);
    forall i | 0 <= i < 2
      ensures n[i] == c[i]
    {
      Modular.CongruentIff(n[i] + a[i], c[i] + a[i], p);
      assert (n[i] + a[i]) - (c[i] + a[i]) == n[i] - c[i];
      Modular.CanonicalUnique(n[i], c[i], p);
    }
  }

  /** `mul_no_carry` on Fp2: the product with u^2 = -1, coefficients left unreduced. */
  function MulNoCarry(a: Fq2, b: Fq2): (m: Fq2)
    ensures a[1] == 0 && b[1] == 0 ==> m == [a[0] * b[0], 0]
    ensures a == [0, 1] && b == [0, 1] ==> m == [-1, 0]
  {
    [a[0] * b[0] - a[1] * b[1], a[0] * b[1] + a[1] * b[0]]
  }

  /** Native `Fq2` multiplication: `mul_no_carry` followed by `carry_mod` (reduction modulo p). */
  function Mul(p: int, a: Fq2, b: Fq2): (m: Fq2)
    requires p > 1
    ensures IsReduced(p, m)
    ensures forall i :: 0 <= i < 2 ==> (m[i] - MulNoCarry(a, b)[i]) % p == 0
  {
    var n := MulNoCarry(a, b);
    [Modular.Reduce(p, n[0]), Modular.Reduce(p, n[1])]
  }

  /** `scalar_mul_no_carry(a, k)`: both coefficients times the integer k, unreduced. */
  function ScalarMulNoCarry(a: Fq2, k: int): (s: Fq2)
    ensures s == MulNoCarry(a, [k, 0])
  {
    [a[0] * k, a[1] * k]
  }

  /** Three chained scalings are one scaling by the product of the scalars. */
  lemma ScalarMulChain(a: Fq2, k1: int, k2: int, k3: int)
    ensures ScalarMulNoCarry(ScalarMulNoCarry(ScalarMulNoCarry(a, k1), k2), k3)
         == ScalarMulNoCarry(a, k1 * k2 * k3)
  {
    assert a[0] * k1 * k2 * k3 == a[0] * (k1 * k2 * k3);
    assert a[1] * k1 * k2 * k3 == a[1] * (k1 * k2 * k3);
  }

  /**
   * The `map(|x| x.0[0]).chain(map(|x| x.0[1])).collect()` of `frobenius_map`:
   * every coefficient 0 of the pushed Fp2 values, then every coefficient 1.
   */
  function CollectCoeffs(out: seq<Fq2>): (coeffs: seq<int>)
    ensures |coeffs| == 2 * |out|
    ensures forall i :: 0 <= i < |out| ==> coeffs[i] == out[i][0] && coeffs[|out| + i] == out[i][1]
  {
    seq(|out|, i requires 0 <= i < |out| => out[i][0]) + seq(|out|, i requires 0 <= i < |out| => out[i][1])
  }

  /** With a single pushed value the collected coefficients are that value, c0 then c1. */
  lemma CollectSingle(a: Fq2)
    ensures CollectCoeffs([a]) == a
  {
  }

  /**
   * What every `Fp2Chip::frobenius_map` variant returns for base-field modulus p:
   * the three `assert_eq!` guards in order, then the conjugate of a.
   */
  function FrobeniusSpec(p: int, a: seq<int>): (r: Result<seq<int>, FrobeniusError>)
    requires p > 1
    ensures r.Success? <==> p % 4 == 3 && p % 6 == 1 && |a| == 2
  {
    if p % 4 != 3 then Failure(ModulusNot3Mod4)
    else if p % 6 != 1 then Failure(ModulusNot1Mod6)
    else if |a| != 2 then Failure(WrongCoefficientCount(|a|))
    else Success(Conjugate(p, a))
  }

  /**
   * The guards: the map fails exactly when p is not 3 mod 4, p is not 1 mod 6 or
   * the input does not have two coefficients, and the first failing guard is the reported one.
   */
  lemma FrobeniusGuards(p: int, a: seq<int>)
    requires p > 1
    ensures FrobeniusSpec(p, a).Failure? <==> !(p % 4 == 3 && p % 6 == 1 && |a| == 2)
    ensures FrobeniusSpec(p, a) == Failure(ModulusNot3Mod4) <==> p % 4 != 3
    ensures FrobeniusSpec(p, a) == Failure(ModulusNot1Mod6) <==> p % 4 == 3 && p % 6 != 1
    ensures FrobeniusSpec(p, a) == Failure(WrongCoefficientCount(|a|))
        <==> p % 4 == 3 && p % 6 == 1 && |a| != 2
  {
  }

  /** On success the output is [a0, (-a1) mod p]: two coefficients, c0 unchanged, c1 negated. */
  lemma FrobeniusOutput(p: int, a: seq<int>)
    requires p > 1
    ensures FrobeniusSpec(p, a).Success? ==>
      var out := FrobeniusSpec(p, a).value;
      |a| == 2 && |out| == 2 && out[0] == a[0] && 0 <= out[1] < p && (out[1] + a[1]) % p == 0
  {
  }

  /** Applied twice to a reduced input, the map returns the input: conjugation is an involution. */
  lemma FrobeniusInvolutive(p: int, a: seq<int>)
    requires p > 1 && IsReduced(p, a)
    ensures FrobeniusSpec(p, a).Success? ==> FrobeniusSpec(p, FrobeniusSpec(p, a).value) == Success(a)
  {
    if FrobeniusSpec(p, a).Success? {
      ConjugateInvolutive(p, a);
    }
  }
}
