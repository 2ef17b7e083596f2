/**
 * `halo2-ecc/src/bls12_381/frobenius_map_fp2.rs`: the variant of
 * `Fp2Chip::frobenius_map` that takes the power to raise to.
 */
module Bls12FrobeniusMapFp2 {
  import opened Wrappers
  import opened Fields
  import opened Curves

  /**
   * `frobenius_map(ctx, a, power)` for a base field of modulus p: the three
   * guards, `pow = power % 2`, the coefficient `FROBENIUS_COEFF_FQ2_C1[pow]`
   * (read and only printed), then the conjugate of a whatever the power.
   */
  method FrobeniusMap(p: int, a: seq<int>, power: nat) returns (r: Result<seq<int>, FrobeniusError>)
    requires p > 1
    ensures r == FrobeniusSpec(p, a)
  {
    if p % 4 != 3 {
      return Failure(ModulusNot3Mod4);
    }
    if p % 6 != 1 {
      return Failure(ModulusNot1Mod6);
    }
    if |a| != 2 {
      return Failure(WrongCoefficientCount(|a|));
    }
    var pow := power % 2;
    var outFp2: seq<Fq2> := [];
    // 0 <= pow < 2 == |FROBENIUS_COEFF_FQ2_C1|, so the index is in bounds
    var frobCoeff := BLS12_381_FROBENIUS_COEFF_FQ2_C1[pow];
    var aFp2: Fq2 := [a[0], a[1]];
    assert aFp2 == a;
    aFp2 := Conjugate(p, aFp2);
    outFp2 := outFp2 + [aFp2];
    assert outFp2 == [aFp2];
    CollectSingle(aFp2);
    r := Success(CollectCoeffs(outFp2));
  }
}
