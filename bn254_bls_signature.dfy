/**
 * `halo2-ecc/src/bn254/bls_signature.rs`: the Fp2 Frobenius shortcut, the G2
 * subgroup gadget `assert_in_g2` and `bls_signature_verify` over BN254.
 */
module Bn254BlsSignature {
  import opened Wrappers
  import opened Fields
  import opened Pairing
  import opened Circuit
  import opened Curves
  import MachineInt
  import BlsVerify

  /**
   * `Fp2Chip::frobenius_map(ctx, a)` for a base field of modulus p: the three
   * `assert_eq!` guards in order, then the conjugate of a as a two-coefficient vector.
   */
  method FrobeniusMap(p: int, a: seq<int>) returns (r: Result<seq<int>, FrobeniusError>)
    requires p > 1
    ensures r == FrobeniusSpec(p, a)
  {
    if p % 4 != 3 {
      return Failure(ModulusNot3Mod4);
    }
    if p % 6 != 1 {
      return Failure(ModulusNot1Mod6);
    }
    if |a| != 2 {
      return Failure(WrongCoefficientCount(|a|));
    }
    var outFp2: seq<Fq2> := [];
    // FROBENIUS_COEFF_FQ2_C1[1] to the power 1; computed and never used
    var frobCoeff := BN254_FROBENIUS_COEFF_FQ2_C1[1];
    var aFp2: Fq2 := [a[0], a[1]];
    assert aFp2 == a;
    aFp2 := Conjugate(p, aFp2);
    outFp2 := outFp2 + [aFp2];
    assert outFp2 == [aFp2];
    CollectSingle(aFp2);
    r := Success(CollectCoeffs(outFp2));
  }

  /** c^2 for c = FROBENIUS_COEFF_FQ12_C1[1]: the `coeff_over_3` of `assert_in_g2`. */
  const COEFF_OVER_3: Fq2 :=
    [21575463638280843010398324269430826099269044274347216827212613867836435027261,
     10307601595873709700152284273816112264069230130616436755625194854815875713954]

  /** c^3 for c = FROBENIUS_COEFF_FQ12_C1[1]: the `coeff_over_2` of `assert_in_g2`. */
  const COEFF_OVER_2: Fq2 :=
    [2821565182194536844548159561693502659359617185244120367078079554186484126554,
     3505843767911556378687030309984248845540243509899259641013678093033130930403]

  /** The psi coefficients are the square and the cube of c in Fq2. */
  lemma PsiCoefficients()
    ensures Mul(BN254_P, BN254_FROBENIUS_COEFF_FQ12_C1_1, BN254_FROBENIUS_COEFF_FQ12_C1_1) == COEFF_OVER_3
    ensures Mul(BN254_P, COEFF_OVER_3, BN254_FROBENIUS_COEFF_FQ12_C1_1) == COEFF_OVER_2
  {
  }

  /** lambda = 6 * BN_X^2, the scalar of the Proposition-3 test psi(P) = [lambda]P. */
  const LAMBDA: nat := 6 * BN_X * BN_X

  /** `6 * BN_X as u128 * BN_X as u128`, evaluated left to right in checked u128 arithmetic. */
  function LambdaU128(): (l: Option<nat>)
  {
    MachineInt.SixXSquared(MachineInt.TWO_128, BN_X)
  }

  /** BN_X survives `as i64` unchanged and lambda fits in a u128. */
  lemma MachineWidthsSuffice()
    ensures MachineInt.AsI64(BN_X) == BN_X
    ensures LambdaU128() == Some(LAMBDA) && LAMBDA < MachineInt.TWO_128
  {
    MachineInt.SixXSquaredExact(MachineInt.TWO_128, BN_X);
  }

  /** The step `assert_in_g2(P)` leaves in the context: psi(P) and [lambda]P coordinates, unconstrained. */
  function SubgroupStep(P: G2Point): (s: Step)
    ensures s.SubgroupTrace? && s.point == P && !IsConstraint(s)
  {
    SubgroupTrace(P, [MulNoCarry(COEFF_OVER_3, Conjugate(BN254_P, P.x)),
                      MulNoCarry(COEFF_OVER_2, Conjugate(BN254_P, P.y)),
                      ScalarMulNoCarry(P.x, LAMBDA),
                      ScalarMulNoCarry(P.y, LAMBDA)])
  }

  /**
   * `assert_in_g2`: computes psi(P) = (c^2 * frob(x), c^3 * frob(y)) and the
   * coordinates scaled by BN_X, BN_X, 6, but asserts no equality between them,
   * so the circuit accepts every point.
   */
  method AssertInG2(ctx: Context, P: G2Point)
    modifies ctx
    ensures ctx.log == old(ctx.log) + [SubgroupStep(P)]
    ensures Constraints(ctx.log) == Constraints(old(ctx.log))
  {
    var coeffOver6: Fq2 := BN254_FROBENIUS_COEFF_FQ12_C1_1;
    var coeffOver3 := Mul(BN254_P, coeffOver6, coeffOver6);
    var coeffOver2 := Mul(BN254_P, coeffOver3, coeffOver6);
    PsiCoefficients();

    ModuliShape();
    var frobX := FrobeniusMap(BN254_P, P.x);
    var frobY := FrobeniusMap(BN254_P, P.y);

    var psiX := MulNoCarry(coeffOver3, frobX.value);
    var psiY := MulNoCarry(coeffOver2, frobY.value);

    MachineWidthsSuffice();
    var k := MachineInt.AsI64(BN_X);
    var lambdaPxX := ScalarMulNoCarry(P.x, k);
    var lambdaPxXSq := ScalarMulNoCarry(lambdaPxX, k);
    var lambdaPx6XSq := ScalarMulNoCarry(lambdaPxXSq, 6);
    var lambdaPyX := ScalarMulNoCarry(P.y, k);
    var lambdaPyXSq := ScalarMulNoCarry(lambdaPyX, k);
    var lambdaPy6XSq := ScalarMulNoCarry(lambdaPyXSq, 6);
    ScalarMulChain(P.x, k, k, 6);
    ScalarMulChain(P.y, k, k, 6);
    assert k * k * 6 == LAMBDA;

    // the development-time value P.x[0] * lambda; computed and never compared
    var lambdaU128 := LambdaU128();
    var actualLambdaPx := P.x[0] * lambdaU128.value;

    ctx.Emit(SubgroupTrace(P, [psiX, psiY, lambdaPx6XSq, lambdaPy6XSq]));
    ConstraintsAppend(old(ctx.log), [SubgroupStep(P)]);
    SingleStep(SubgroupStep(P));
  }

  /** What `bls_signature_verify` appends to the context, with the BN254 subgroup steps. */
  function VerifyTrace(g1: G1Point, sig: G2Point, pk: G1Point, h: G2Point): (trace: seq<Step>)
  {
    BlsVerify.VerifyTrace(BN254_P, BN254_R, g1, sig, pk, h, [SubgroupStep(sig), SubgroupStep(h)])
  }

  /**
   * `bls_signature_verify(ctx, g1, signature, pubkey, msghash)`: loads the four
   * points, asserts each on its curve, runs the subgroup gadget on the signature
   * and then on the hash, negates the signature, and returns
   * final_exp(multi_miller_loop([(g1, -sig), (pk, H)])).
   */
  method Verify(ctx: Context, g1: G1Point, sig: G2Point, pk: G1Point, h: G2Point) returns (result: int)
    modifies ctx
    ensures ctx.log == old(ctx.log) + VerifyTrace(g1, sig, pk, h)
    ensures result == BlsVerify.VerifyValue(BN254_P, BN254_R, g1, sig, pk, h)
    ensures result == GT_ONE <==> Pair(BN254_R, g1, sig) == Pair(BN254_R, pk, h)
  {
    ghost var log0 := ctx.log;
    BlsVerify.LoadAndCheckOnCurve(ctx, g1, sig, pk, h);
    AssertInG2(ctx, sig);
    AssertInG2(ctx, h);
    result := BlsVerify.NegateAndPair(ctx, BN254_P, BN254_R, g1, sig, pk, h);
    AppendTrace(log0, BlsVerify.LoadSteps(g1, sig, pk, h) + BlsVerify.CurveSteps(g1, sig, pk, h),
      SubgroupStep(sig), SubgroupStep(h), BlsVerify.PairingSteps(BN254_P, BN254_R, g1, sig, pk, h));
    BlsVerify.VerifyValueIff(BN254_P, BN254_R, g1, sig, pk, h);
  }

  /** The only constraints verification emits are the four on-curve checks, in the order g1, sig, pk, H. */
  lemma VerifyConstraints(g1: G1Point, sig: G2Point, pk: G1Point, h: G2Point)
    ensures Constraints(VerifyTrace(g1, sig, pk, h)) == BlsVerify.CurveSteps(g1, sig, pk, h)
  {
    var s := [SubgroupStep(sig), SubgroupStep(h)];
    assert forall i :: 0 <= i < |s| ==> !IsConstraint(s[i]);
    BlsVerify.TraceConstraints(BN254_P, BN254_R, g1, sig, pk, h, s);
  }

  /** The subgroup gadget runs on the two G2 points only, signature first; g1 and pk get none. */
  lemma VerifySubgroupCalls(g1: G1Point, sig: G2Point, pk: G1Point, h: G2Point)
    ensures SubgroupCalls(VerifyTrace(g1, sig, pk, h)) == [sig, h]
  {
    var s := [SubgroupStep(sig), SubgroupStep(h)];
    assert SubgroupCalls(s) == [sig, h] by {
      SubgroupCallsAppend([s[0]], [s[1]]);
      assert s == [s[0]] + [s[1]];
      SingleStep(s[0]);
      SingleStep(s[1]);
    }
    BlsVerify.TraceSubgroupCalls(BN254_P, BN254_R, g1, sig, pk, h, s);
  }
}
