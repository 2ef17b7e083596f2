/**
 * `halo2-ecc/src/bls12_381/bls_signature.rs`: the Fp2 Frobenius shortcut, the
 * G2 subgroup gadget `assert_in_g2` and `bls_signature_verify` over BLS12-381.
 * `AssertInG2` and `Verify` follow the code as written: the scalings use
 * `BLS_X as i64`, which wraps, and `6 * BLS_X * BLS_X` is taken in `u128`,
 * where it overflows, so a build with overflow checks panics inside the first
 * call of the subgroup gadget. `AssertInG2Intended` and `VerifyIntended` scale
 * by BLS_X itself and take lambda = 6 * BLS_X^2 in 256-bit arithmetic.
 */
module Bls12BlsSignature {
  import opened Wrappers
  import opened Fields
  import opened Pairing
  import opened Circuit
  import opened Curves
  import MachineInt
  import BlsVerify

  /**
   * `Fp2Chip::frobenius_map(ctx, a)` for a base field of modulus p: the three
   * `assert_eq!` guards, then a single conjugated Fp2 value pushed into a vector
   * reserved for six and collected back into two coefficients.
   */
  method FrobeniusMap(p: int, a: seq<int>) returns (r: Result<seq<int>, FrobeniusError>)
    requires p > 1
    ensures r == FrobeniusSpec(p, a)
  {
    if p % 4 != 3 {
      return Failure(ModulusNot3Mod4);
    }
    if p % 6 != 1 {
      return Failure(ModulusNot1Mod6);
    }
    if |a| != 2 {
      return Failure(WrongCoefficientCount(|a|));
    }
    var outFp2: seq<Fq2> := [];
    var aFp2: Fq2 := [a[0], a[1]];
    assert aFp2 == a;
    aFp2 := Conjugate(p, aFp2);
    outFp2 := outFp2 + [aFp2];
    assert outFp2 == [aFp2];
    CollectSingle(aFp2);
    r := Success(CollectCoeffs(outFp2));
  }

  /** lambda = 6 * BLS_X^2, the scalar the gadget is meant to multiply P by. */
  const LAMBDA: nat := 6 * BLS_X * BLS_X

  /** (BLS_X - 2^64)^2 * 6, the scalar the three scalings as written multiply by. */
  const LAMBDA_AS_WRITTEN: nat := 65910205501223324410397572940458622976

  /** `BLS_X as i64`: the unsigned parameter reinterpreted as a signed 64-bit integer. */
  function ScalarAsWritten(): (k: int)
    ensures k == BLS_X - MachineInt.TWO_64 && k < 0
  {
    MachineInt.AsI64(BLS_X)
  }

  /** The three `scalar_mul_no_carry` steps as written: by `BLS_X as i64`, again, then by 6. */
  function LambdaChainAsWritten(a: Fq2): (s: Fq2)
    ensures s == ScalarMulNoCarry(a, LAMBDA_AS_WRITTEN)
  {
    var k := ScalarAsWritten();
    ScalarMulChain(a, k, k, 6);
    assert k * k * 6 == LAMBDA_AS_WRITTEN;
    ScalarMulNoCarry(ScalarMulNoCarry(ScalarMulNoCarry(a, k), k), 6)
  }

  /**
   * BLS_X is at least 2^63, so the cast wraps, and the chain multiplies by
   * (BLS_X - 2^64)^2 * 6, which differs from lambda: every nonzero coordinate is
   * scaled by the wrong factor.
   */
  lemma LambdaChainAsWrittenDiffers(a: Fq2)
    requires a[0] != 0 || a[1] != 0
    ensures ScalarAsWritten() != BLS_X
    ensures LambdaChainAsWritten(a) != ScalarMulNoCarry(a, LAMBDA)
  {
    assert LAMBDA_AS_WRITTEN != LAMBDA;
    if a[0] != 0 {
      NonzeroFactor(a[0], LAMBDA_AS_WRITTEN, LAMBDA);
    } else {
      NonzeroFactor(a[1], LAMBDA_AS_WRITTEN, LAMBDA);
    }
  }

  lemma NonzeroFactor(c: int, x: int, y: int)
    requires c != 0 && x != y
    ensures c * x != c * y
  {
    assert c * x - c * y == c * (x - y);
  }

  /** 6 * BLS_X fits in `u128`, but lambda does not: the multiplication by the second BLS_X overflows. */
  lemma LambdaU128AsWrittenOverflows()
    ensures MachineInt.MulChecked(MachineInt.TWO_128, 6, BLS_X) == Some(6 * BLS_X)
    ensures LAMBDA >= MachineInt.TWO_128
    ensures MachineInt.SixXSquared(MachineInt.TWO_128, BLS_X) == None
  {
    MachineInt.SixXSquaredExact(MachineInt.TWO_128, BLS_X);
  }

  /**
   * `6 * u128::from(BLS_X) * u128::from(BLS_X)` as written: with overflow checks
   * the product panics (`None`); without them it wraps to lambda mod 2^128,
   * which is not lambda.
   */
  function LambdaU128AsWritten(overflowChecks: bool): (l: Option<nat>)
    ensures l.None? <==> overflowChecks
    ensures l.Some? ==> l.value == LAMBDA % MachineInt.TWO_128 && l.value != LAMBDA
  {
    LambdaU128AsWrittenOverflows();
    if overflowChecks then MachineInt.SixXSquared(MachineInt.TWO_128, BLS_X)
    else Some(MachineInt.SixXSquaredWrapping(MachineInt.TWO_128, BLS_X))
  }

  /** The same product in checked 256-bit arithmetic: it does not overflow and is exactly lambda. */
  function LambdaU256(): (l: Option<nat>)
    ensures l == Some(LAMBDA)
  {
    MachineInt.SixXSquaredExact(MachineInt.TWO_256, BLS_X);
    MachineInt.SixXSquared(MachineInt.TWO_256, BLS_X)
  }

  /** The three scalings with the parameter itself as the scalar: BLS_X, BLS_X, then 6. */
  function LambdaChain(a: Fq2): (s: Fq2)
    ensures s == ScalarMulNoCarry(a, LAMBDA)
  {
    ScalarMulChain(a, BLS_X, BLS_X, 6);
    ScalarMulNoCarry(ScalarMulNoCarry(ScalarMulNoCarry(a, BLS_X), BLS_X), 6)
  }

  /**
   * The step `assert_in_g2(P)` as written leaves in the context: frob(x), frob(y)
   * and the coordinates scaled by (BLS_X - 2^64)^2 * 6, none of them constrained.
   */
  function SubgroupStep(P: G2Point): (s: Step)
    ensures s.SubgroupTrace? && s.point == P && !IsConstraint(s)
    ensures |s.computed| == 4
    ensures s.computed[2] == ScalarMulNoCarry(P.x, LAMBDA_AS_WRITTEN)
    ensures s.computed[3] == ScalarMulNoCarry(P.y, LAMBDA_AS_WRITTEN)
  {
    SubgroupTrace(P, [Conjugate(BLS12_381_P, P.x), Conjugate(BLS12_381_P, P.y),
                      LambdaChainAsWritten(P.x), LambdaChainAsWritten(P.y)])
  }

  /** The step the intended gadget leaves: frob(x), frob(y) and [lambda]P's coordinates, unconstrained. */
  function SubgroupStepIntended(P: G2Point): (s: Step)
    ensures s.SubgroupTrace? && s.point == P && !IsConstraint(s)
    ensures |s.computed| == 4
    ensures s.computed[2] == ScalarMulNoCarry(P.x, LAMBDA)
    ensures s.computed[3] == ScalarMulNoCarry(P.y, LAMBDA)
  {
    SubgroupTrace(P, [Conjugate(BLS12_381_P, P.x), Conjugate(BLS12_381_P, P.y),
                      LambdaChain(P.x), LambdaChain(P.y)])
  }

  /**
   * `assert_in_g2` as written, in a build with or without overflow checks. It
   * reads the psi coefficient, computes frob(x), frob(y) and the coordinates
   * scaled by `BLS_X as i64` twice and by 6, and compares none of them. Then it
   * takes `6 * BLS_X * BLS_X` in `u128`: with overflow checks that panics, and
   * `ok` is false; without them the wrapped value is used for the debug value
   * `actual_lambda_Px`, which is never compared either.
   */
  method AssertInG2(ctx: Context, P: G2Point, overflowChecks: bool) returns (ok: bool)
    modifies ctx
    ensures ok <==> !overflowChecks
    ensures ctx.log == old(ctx.log) + [SubgroupStep(P)]
    ensures Constraints(ctx.log) == Constraints(old(ctx.log))
  {
    // FROBENIUS_COEFF_FQ12_C1[1]; read and never used
    var coeff: Fq2 := BLS12_381_FROBENIUS_COEFF_FQ12_C1_1;

    ModuliShape();
    var frobX := FrobeniusMap(BLS12_381_P, P.x);
    var frobY := FrobeniusMap(BLS12_381_P, P.y);

    var k := ScalarAsWritten();
    var lambdaPxX := ScalarMulNoCarry(P.x, k);
    var lambdaPxXSq := ScalarMulNoCarry(lambdaPxX, k);
    var lambdaPx6XSq := ScalarMulNoCarry(lambdaPxXSq, 6);
    var lambdaPyX := ScalarMulNoCarry(P.y, k);
    var lambdaPyXSq := ScalarMulNoCarry(lambdaPyX, k);
    var lambdaPy6XSq := ScalarMulNoCarry(lambdaPyXSq, 6);

    var fx: Fq2 := frobX.value;
    var fy: Fq2 := frobY.value;
    ctx.Emit(SubgroupTrace(P, [fx, fy, lambdaPx6XSq, lambdaPy6XSq]));
    ConstraintsAppend(old(ctx.log), [SubgroupStep(P)]);
    SingleStep(SubgroupStep(P));

    var lambdaU128 := LambdaU128AsWritten(overflowChecks);
    if lambdaU128.None? {
      // the overflow panic of `6 * u128::from(BLS_X) * u128::from(BLS_X)`
      return false;
    }
    // P.x[0] * lambda_u128; computed and never compared
    var actualLambdaPx := P.x[0] * lambdaU128.value;
    ok := true;
  }

  /**
   * `assert_in_g2` as intended: the same computation with BLS_X itself as the
   * scalar and lambda taken in 256 bits (`LambdaChain`, `LambdaU256`). It
   * compares nothing either, so the circuit accepts every point.
   */
  method AssertInG2Intended(ctx: Context, P: G2Point)
    modifies ctx
    ensures ctx.log == old(ctx.log) + [SubgroupStepIntended(P)]
    ensures Constraints(ctx.log) == Constraints(old(ctx.log))
  {
    // FROBENIUS_COEFF_FQ12_C1[1]; read and never used
    var coeff: Fq2 := BLS12_381_FROBENIUS_COEFF_FQ12_C1_1;

    ModuliShape();
    var frobX := FrobeniusMap(BLS12_381_P, P.x);
    var frobY := FrobeniusMap(BLS12_381_P, P.y);

    var lambdaPx6XSq := LambdaChain(P.x);
    var lambdaPy6XSq := LambdaChain(P.y);

    // the development-time value P.x[0] * lambda; computed and never compared
    var lambdaWide := LambdaU256();
    var actualLambdaPx := P.x[0] * lambdaWide.value;

    var fx: Fq2 := frobX.value;
    var fy: Fq2 := frobY.value;
    ctx.Emit(SubgroupTrace(P, [fx, fy, lambdaPx6XSq, lambdaPy6XSq]));
    ConstraintsAppend(old(ctx.log), [SubgroupStepIntended(P)]);
    SingleStep(SubgroupStepIntended(P));
  }

  /** What `bls_signature_verify` as written appends when it runs to the end. */
  function VerifyTrace(g1: G1Point, sig: G2Point, pk: G1Point, h: G2Point): (trace: seq<Step>)
  {
    BlsVerify.VerifyTrace(BLS12_381_P, BLS12_381_R, g1, sig, pk, h, [SubgroupStep(sig), SubgroupStep(h)])
  }

  /** What it appends before the overflow panic in the subgroup gadget's call on the signature. */
  function PanicTrace(g1: G1Point, sig: G2Point, pk: G1Point, h: G2Point): (trace: seq<Step>)
  {
    BlsVerify.LoadSteps(g1, sig, pk, h) + BlsVerify.CurveSteps(g1, sig, pk, h) + [SubgroupStep(sig)]
  }

  /** What the intended verification appends, with the intended subgroup steps. */
  function VerifyTraceIntended(g1: G1Point, sig: G2Point, pk: G1Point, h: G2Point): (trace: seq<Step>)
  {
    BlsVerify.VerifyTrace(BLS12_381_P, BLS12_381_R, g1, sig, pk, h,
      [SubgroupStepIntended(sig), SubgroupStepIntended(h)])
  }

  /**
   * `bls_signature_verify(ctx, g1, signature, pubkey, msghash)` as written:
   * loads the four points, asserts each on its curve and runs the subgroup
   * gadget on the signature. With overflow checks that call panics, and the
   * result is `None`. Without them it runs the gadget on the hash, negates the
   * signature and returns final_exp(multi_miller_loop([(g1, -sig), (pk, H)])).
   */
  method Verify(ctx: Context, g1: G1Point, sig: G2Point, pk: G1Point, h: G2Point, overflowChecks: bool)
    returns (result: Option<int>)
    modifies ctx
    ensures result.None? <==> overflowChecks
    ensures overflowChecks ==> ctx.log == old(ctx.log) + PanicTrace(g1, sig, pk, h)
    ensures !overflowChecks ==> ctx.log == old(ctx.log) + VerifyTrace(g1, sig, pk, h)
    ensures result.Some? ==> result.value == BlsVerify.VerifyValue(BLS12_381_P, BLS12_381_R, g1, sig, pk, h)
    ensures result.Some? ==> (result.value == GT_ONE <==> Pair(BLS12_381_R, g1, sig) == Pair(BLS12_381_R, pk, h))
  {
    ghost var log0 := ctx.log;
    BlsVerify.LoadAndCheckOnCurve(ctx, g1, sig, pk, h);
    var sigOk := AssertInG2(ctx, sig, overflowChecks);
    if !sigOk {
      // the panic ends circuit synthesis here
      return None;
    }
    // the same build, so this call does not panic either
    var hOk := AssertInG2(ctx, h, overflowChecks);
    var value := BlsVerify.NegateAndPair(ctx, BLS12_381_P, BLS12_381_R, g1, sig, pk, h);
    AppendTrace(log0, BlsVerify.LoadSteps(g1, sig, pk, h) + BlsVerify.CurveSteps(g1, sig, pk, h),
      SubgroupStep(sig), SubgroupStep(h), BlsVerify.PairingSteps(BLS12_381_P, BLS12_381_R, g1, sig, pk, h));
    BlsVerify.VerifyValueIff(BLS12_381_P, BLS12_381_R, g1, sig, pk, h);
    result := Some(value);
  }

  /**
   * `bls_signature_verify` as intended: the same composition with the intended
   * subgroup gadget, returning final_exp(multi_miller_loop([(g1, -sig), (pk, H)])).
   */
  method VerifyIntended(ctx: Context, g1: G1Point, sig: G2Point, pk: G1Point, h: G2Point) returns (result: int)
    modifies ctx
    ensures ctx.log == old(ctx.log) + VerifyTraceIntended(g1, sig, pk, h)
    ensures result == BlsVerify.VerifyValue(BLS12_381_P, BLS12_381_R, g1, sig, pk, h)
    ensures result == GT_ONE <==> Pair(BLS12_381_R, g1, sig) == Pair(BLS12_381_R, pk, h)
  {
    ghost var log0 := ctx.log;
    BlsVerify.LoadAndCheckOnCurve(ctx, g1, sig, pk, h);
    AssertInG2Intended(ctx, sig);
    AssertInG2Intended(ctx, h);
    result := BlsVerify.NegateAndPair(ctx, BLS12_381_P, BLS12_381_R, g1, sig, pk, h);
    AppendTrace(log0, BlsVerify.LoadSteps(g1, sig, pk, h) + BlsVerify.CurveSteps(g1, sig, pk, h),
      SubgroupStepIntended(sig), SubgroupStepIntended(h), BlsVerify.PairingSteps(BLS12_381_P, BLS12_381_R, g1, sig, pk, h));
    BlsVerify.VerifyValueIff(BLS12_381_P, BLS12_381_R, g1, sig, pk, h);
  }

  /** The only constraints verification as written emits are the four on-curve checks, in the order g1, sig, pk, H. */
  lemma VerifyConstraints(g1: G1Point, sig: G2Point, pk: G1Point, h: G2Point)
    ensures Constraints(VerifyTrace(g1, sig, pk, h)) == BlsVerify.CurveSteps(g1, sig, pk, h)
  {
    var s := [SubgroupStep(sig), SubgroupStep(h)];
    assert forall i :: 0 <= i < |s| ==> !IsConstraint(s[i]);
    BlsVerify.TraceConstraints(BLS12_381_P, BLS12_381_R, g1, sig, pk, h, s);
  }

  /** When the subgroup gadget panics, the four on-curve checks have already been emitted and nothing else constrains. */
  lemma PanicConstraints(g1: G1Point, sig: G2Point, pk: G1Point, h: G2Point)
    ensures Constraints(PanicTrace(g1, sig, pk, h)) == BlsVerify.CurveSteps(g1, sig, pk, h)
  {
    var l := BlsVerify.LoadSteps(g1, sig, pk, h);
    var c := BlsVerify.CurveSteps(g1, sig, pk, h);
    var s := SubgroupStep(sig);
    ConstraintsNone(l);
    ConstraintsAll(c);
    SingleStep(s);
    ConstraintsAppend(l, c);
    ConstraintsAppend(l + c, [s]);
  }

  /** The intended verification constrains the same four on-curve checks and nothing else. */
  lemma VerifyIntendedConstraints(g1: G1Point, sig: G2Point, pk: G1Point, h: G2Point)
    ensures Constraints(VerifyTraceIntended(g1, sig, pk, h)) == BlsVerify.CurveSteps(g1, sig, pk, h)
  {
    var t := [SubgroupStepIntended(sig), SubgroupStepIntended(h)];
    assert forall i :: 0 <= i < |t| ==> !IsConstraint(t[i]);
    BlsVerify.TraceConstraints(BLS12_381_P, BLS12_381_R, g1, sig, pk, h, t);
  }

  /** The subgroup gadget runs on the two G2 points only, signature first; g1 and pk only get the on-curve check. */
  lemma VerifySubgroupCalls(g1: G1Point, sig: G2Point, pk: G1Point, h: G2Point)
    ensures SubgroupCalls(VerifyTrace(g1, sig, pk, h)) == [sig, h]
  {
    var s := [SubgroupStep(sig), SubgroupStep(h)];
    assert SubgroupCalls(s) == [sig, h] by {
      SubgroupCallsAppend([s[0]], [s[1]]);
      assert s == [s[0]] + [s[1]];
      SingleStep(s[0]);
      SingleStep(s[1]);
    }
    BlsVerify.TraceSubgroupCalls(BLS12_381_P, BLS12_381_R, g1, sig, pk, h, s);
  }

  /** The intended verification calls the subgroup gadget on the same two points, in the same order. */
  lemma VerifyIntendedSubgroupCalls(g1: G1Point, sig: G2Point, pk: G1Point, h: G2Point)
    ensures SubgroupCalls(VerifyTraceIntended(g1, sig, pk, h)) == [sig, h]
  {
    var t := [SubgroupStepIntended(sig), SubgroupStepIntended(h)];
    assert SubgroupCalls(t) == [sig, h] by {
      SubgroupCallsAppend([t[0]], [t[1]]);
      assert t == [t[0]] + [t[1]];
      SingleStep(t[0]);
      SingleStep(t[1]);
    }
    BlsVerify.TraceSubgroupCalls(BLS12_381_P, BLS12_381_R, g1, sig, pk, h, t);
  }
}
