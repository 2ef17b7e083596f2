/**
 * The composition both `bls_signature_verify` gadgets share (BN254 and
 * BLS12-381): the steps they emit, the pairs they hand to the multi-Miller loop
 * and the value they return, stated for a base-field modulus p, a group order r
 * and the steps the curve's own `assert_in_g2` emits.
 */
module BlsVerify {
  import opened Pairing
  import opened Circuit

  /** The four witness loads: g1, sig, pk, H. */
  function LoadSteps(g1: G1Point, sig: G2Point, pk: G1Point, h: G2Point): (steps: seq<Step>)
  {
    [LoadG1(g1), LoadG2(sig), LoadG1(pk), LoadG2(h)]
  }

  /** The four on-curve constraints, in the same order as the loads. */
  function CurveSteps(g1: G1Point, sig: G2Point, pk: G1Point, h: G2Point): (steps: seq<Step>)
  {
    [AssertOnCurveG1(g1), AssertOnCurveG2(sig), AssertOnCurveG1(pk), AssertOnCurveG2(h)]
  }

  /** The pairs of the multi-Miller loop: (g1, -sig) first, then (pk, H). */
  function VerifyPairs(p: int, r: int, g1: G1Point, sig: G2Point, pk: G1Point, h: G2Point): (pairs: seq<PairInput>)
    requires p > 1 && r > 1
  {
    [(g1, Negate(p, r, sig)), (pk, h)]
  }

  /** The value `bls_signature_verify` returns: final_exp of the multi-Miller loop. */
  function VerifyValue(p: int, r: int, g1: G1Point, sig: G2Point, pk: G1Point, h: G2Point): (v: int)
    requires p > 1 && r > 1
  {
    FinalExp(r, MillerLoop(VerifyPairs(p, r, g1, sig, pk, h)))
  }

  /** The four loads and the four on-curve assertions both gadgets begin with. */
  method LoadAndCheckOnCurve(ctx: Context, g1: G1Point, sig: G2Point, pk: G1Point, h: G2Point)
    modifies ctx
    ensures ctx.log == old(ctx.log) + (LoadSteps(g1, sig, pk, h) + CurveSteps(g1, sig, pk, h))
  {
    ghost var log0 := ctx.log;
    ctx.Emit(LoadG1(g1));
    ctx.Emit(LoadG2(sig));
    ctx.Emit(LoadG1(pk));
    ctx.Emit(LoadG2(h));
    ghost var log1 := ctx.log;
    Append4(log0, LoadG1(g1), LoadG2(sig), LoadG1(pk), LoadG2(h));
    ctx.Emit(AssertOnCurveG1(g1));
    ctx.Emit(AssertOnCurveG2(sig));
    ctx.Emit(AssertOnCurveG1(pk));
    ctx.Emit(AssertOnCurveG2(h));
    Append4(log1, AssertOnCurveG1(g1), AssertOnCurveG2(sig), AssertOnCurveG1(pk), AssertOnCurveG2(h));
  }

  /** The negation of the signature, the multi-Miller loop and the final exponentiation. */
  function PairingSteps(p: int, r: int, g1: G1Point, sig: G2Point, pk: G1Point, h: G2Point): (steps: seq<Step>)
    requires p > 1 && r > 1
  {
    [NegateG12(sig), MultiMillerLoop(VerifyPairs(p, r, g1, sig, pk, h)),
     FinalExponentiation(MillerLoop(VerifyPairs(p, r, g1, sig, pk, h)))]
  }

  /**
   * The end both gadgets share: negate the signature with the Fp12 EC chip, run
   * the multi-Miller loop on [(g1, -sig), (pk, H)] and the final exponentiation.
   */
  method NegateAndPair(ctx: Context, p: int, r: int, g1: G1Point, sig: G2Point, pk: G1Point, h: G2Point)
    returns (result: int)
    requires p > 1 && r > 1
    modifies ctx
    ensures ctx.log == old(ctx.log) + PairingSteps(p, r, g1, sig, pk, h)
    ensures result == VerifyValue(p, r, g1, sig, pk, h)
  {
    var negSig := Negate(p, r, sig);
    ctx.Emit(NegateG12(sig));
    var pairs := [(g1, negSig), (pk, h)];
    var multiPaired := MillerLoop(pairs);
    ctx.Emit(MultiMillerLoop(pairs));
    result := FinalExp(r, multiPaired);
    ctx.Emit(FinalExponentiation(multiPaired));
    Append3(old(ctx.log), NegateG12(sig), MultiMillerLoop(pairs), FinalExponentiation(multiPaired));
  }

  /** Everything verification appends to the context, with `subgroup` the steps of the two subgroup checks. */
  function VerifyTrace(p: int, r: int, g1: G1Point, sig: G2Point, pk: G1Point, h: G2Point,
                       subgroup: seq<Step>): (trace: seq<Step>)
    requires p > 1 && r > 1
  {
    LoadSteps(g1, sig, pk, h) + CurveSteps(g1, sig, pk, h) + subgroup + PairingSteps(p, r, g1, sig, pk, h)
  }

  /**
   * When the subgroup checks constrain nothing, the only constraints of the trace
   * are the four on-curve checks, in the order g1, sig, pk, H.
   */
  lemma TraceConstraints(p: int, r: int, g1: G1Point, sig: G2Point, pk: G1Point, h: G2Point,
                         subgroup: seq<Step>)
    requires p > 1 && r > 1
    requires forall i :: 0 <= i < |subgroup| ==> !IsConstraint(subgroup[i])
    ensures Constraints(VerifyTrace(p, r, g1, sig, pk, h, subgroup)) == CurveSteps(g1, sig, pk, h)
  {
    var l := LoadSteps(g1, sig, pk, h);
    var c := CurveSteps(g1, sig, pk, h);
    var t := PairingSteps(p, r, g1, sig, pk, h);
    ConstraintsNone(l);
    ConstraintsAll(c);
    ConstraintsNone(subgroup);
    ConstraintsNone(t);
    ConstraintsAppend(l, c);
    ConstraintsAppend(l + c, subgroup);
    ConstraintsAppend(l + c + subgroup, t);
  }

  /**
   * The subgroup gadget is called exactly where the curve's checks call it: the
   * loads, on-curve checks and pairing steps call it on no point, so g1 and pk get none.
   */
  lemma TraceSubgroupCalls(p: int, r: int, g1: G1Point, sig: G2Point, pk: G1Point, h: G2Point,
                           subgroup: seq<Step>)
    requires p > 1 && r > 1
    ensures SubgroupCalls(VerifyTrace(p, r, g1, sig, pk, h, subgroup)) == SubgroupCalls(subgroup)
  {
    var lc := LoadSteps(g1, sig, pk, h) + CurveSteps(g1, sig, pk, h);
    var t := PairingSteps(p, r, g1, sig, pk, h);
    SubgroupCallsNone(lc);
    SubgroupCallsNone(t);
    SubgroupCallsAppend(lc, subgroup);
    SubgroupCallsAppend(lc + subgroup, t);
  }

  /** The returned value is the GT identity exactly when e(g1, sig) == e(pk, H). */
  lemma VerifyValueIff(p: int, r: int, g1: G1Point, sig: G2Point, pk: G1Point, h: G2Point)
    requires p > 1 && r > 1
    ensures VerifyValue(p, r, g1, sig, pk, h) == GT_ONE <==> Pair(r, g1, sig) == Pair(r, pk, h)
  {
    CoreVerifyIff(p, r, g1, sig, pk, h);
  }

  /** For a genuine key pair (pk = [sk]g1, sig = [sk]H) verification returns the GT identity. */
  lemma AcceptsGenuineSignature(p: int, r: int, g1: G1Point, sig: G2Point, pk: G1Point, h: G2Point, sk: int)
    requires p > 1 && r > 1
    requires (pk.dlog - sk * g1.dlog) % r == 0 && (sig.dlog - sk * h.dlog) % r == 0
    ensures VerifyValue(p, r, g1, sig, pk, h) == GT_ONE
  {
    GenuineKeyPairPairs(r, g1, pk, sig, h, sk);
    VerifyValueIff(p, r, g1, sig, pk, h);
  }

  /** A signature made with the wrong key, sig = [sk + 1]H for pk = [sk]g1, is rejected when e(g1, H) is not one. */
  lemma RejectsWrongKey(p: int, r: int, g1: G1Point, sig: G2Point, pk: G1Point, h: G2Point, sk: int)
    requires p > 1 && r > 1
    requires (pk.dlog - sk * g1.dlog) % r == 0 && (sig.dlog - (sk + 1) * h.dlog) % r == 0
    requires (g1.dlog * h.dlog) % r != 0
    ensures VerifyValue(p, r, g1, sig, pk, h) != GT_ONE
  {
    WrongKeyDoesNotPair(r, g1, pk, sig, h, sk);
    VerifyValueIff(p, r, g1, sig, pk, h);
  }
}
