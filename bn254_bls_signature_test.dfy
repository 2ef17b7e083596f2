/**
 * `halo2-ecc/src/bn254/bls_signature_test.rs`: two experimental verifiers.
 * `bls_signature_verify_test` runs seven multi-Miller loops that differ in which
 * point is negated and by which route, and returns one `is_equal(result, one)`
 * flag per loop; `bls_signature_verify_separate_test` pairs separately and
 * compares the product with one.
 */
module Bn254BlsSignatureTest {
  import opened Fields
  import opened Pairing
  import opened Curves
  import Modular

  /** `-signature` computed natively on the G2 point and then loaded as a witness. */
  function NegateNativePoint(q: G2Point): (n: G2Point)
    ensures n == Negate(BN254_P, BN254_R, q)
  {
    NegateRoutesAgree(BN254_P, q.y);
    G2Point(q.x, NegateNative(BN254_P, q.y), Modular.Neg(BN254_R, q.dlog))
  }

  /**
   * The pair lists of the seven `multi_miller_loop` calls, in order: plain;
   * sig negated natively; H negated natively; sig negated by the G2 chip; sig
   * negated by the Fp12 chip; H negated by the G2 chip; H negated by the Fp12 chip.
   */
  function VerifyTestPairs(g1: G1Point, sig: G2Point, pk: G1Point, h: G2Point): (lists: seq<seq<PairInput>>)
    ensures |lists| == 7
  {
    var negSig := NegateNativePoint(sig);
    var negH := NegateNativePoint(h);
    var negSigG2 := Negate(BN254_P, BN254_R, sig);
    var negHG2 := Negate(BN254_P, BN254_R, h);
    var negSigG12 := Negate(BN254_P, BN254_R, sig);
    var negHG12 := Negate(BN254_P, BN254_R, h);
    [[(g1, sig), (pk, h)],
     [(g1, negSig), (pk, h)],
     [(g1, sig), (pk, negH)],
     [(g1, negSigG2), (pk, h)],
     [(g1, negSigG12), (pk, h)],
     [(g1, sig), (pk, negHG2)],
     [(g1, sig), (pk, negHG12)]]
  }

  /** `is_equal(final_exp(multi_miller_loop(pairs)), one)`: 1 when the product of pairings is one. */
  function IsOneFlag(pairs: seq<PairInput>): (flag: int)
  {
    GtIsEqual(BN254_R, FinalExp(BN254_R, MillerLoop(pairs)), GT_ONE)
  }

  /**
   * `bls_signature_verify_test`: the seven flags result_1 .. result_7, each a bit
   * that is 1 exactly when its loop's final exponentiation is the identity.
   */
  function VerifyTest(g1: G1Point, sig: G2Point, pk: G1Point, h: G2Point): (flags: seq<int>)
    ensures |flags| == 7
    ensures forall i :: 0 <= i < 7 ==> flags[i] == 0 || flags[i] == 1
    ensures forall i :: 0 <= i < 7 ==>
      (flags[i] == 1 <==> FinalExp(BN254_R, MillerLoop(VerifyTestPairs(g1, sig, pk, h)[i])) == GT_ONE)
  {
    var lists := VerifyTestPairs(g1, sig, pk, h);
    IsOneFlagIff(lists[0]);
    IsOneFlagIff(lists[1]);
    IsOneFlagIff(lists[2]);
    IsOneFlagIff(lists[3]);
    IsOneFlagIff(lists[4]);
    IsOneFlagIff(lists[5]);
    IsOneFlagIff(lists[6]);
    [IsOneFlag(lists[0]), IsOneFlag(lists[1]), IsOneFlag(lists[2]), IsOneFlag(lists[3]),
     IsOneFlag(lists[4]), IsOneFlag(lists[5]), IsOneFlag(lists[6])]
  }

  /**
   * Every loop pairs g1 with the signature side first and pk with the hash side
   * second, and the three negation routes agree: loops 2, 4, 5 negate sig and
   * are the same loop, loops 3, 6, 7 negate H and are the same loop.
   */
  lemma VerifyTestPairsShape(g1: G1Point, sig: G2Point, pk: G1Point, h: G2Point)
    ensures var lists := VerifyTestPairs(g1, sig, pk, h);
      |lists| == 7 &&
      (forall i :: 0 <= i < 7 ==> |lists[i]| == 2 && lists[i][0].0 == g1 && lists[i][1].0 == pk) &&
      lists[0] == [(g1, sig), (pk, h)] &&
      lists[1] == lists[3] == lists[4] == [(g1, Negate(BN254_P, BN254_R, sig)), (pk, h)] &&
      lists[2] == lists[5] == lists[6] == [(g1, sig), (pk, Negate(BN254_P, BN254_R, h))]
  {
  }

  /** A flag is 1 exactly when the Miller-loop output is a multiple of r. */
  lemma IsOneFlagIff(pairs: seq<PairInput>)
    ensures IsOneFlag(pairs) == 0 || IsOneFlag(pairs) == 1
    ensures IsOneFlag(pairs) == 1 <==> MillerLoop(pairs) % BN254_R == 0
    ensures IsOneFlag(pairs) == 1 <==> FinalExp(BN254_R, MillerLoop(pairs)) == GT_ONE
  {
    var m := MillerLoop(pairs);
    var v := FinalExp(BN254_R, m);
    Modular.UniqueRemainder(v, 0, v, BN254_R);
    Modular.CongruentIff(v, m, BN254_R);
    Modular.UniqueRemainder(0, 0, 0, BN254_R);
  }

  /** The first loop pairs nothing negated: its flag is 1 iff e(g1, sig) * e(pk, H) is one. */
  lemma FirstFlag(g1: G1Point, sig: G2Point, pk: G1Point, h: G2Point)
    ensures VerifyTest(g1, sig, pk, h)[0] == 1 <==> (g1.dlog * sig.dlog + pk.dlog * h.dlog) % BN254_R == 0
  {
    VerifyTestPairsShape(g1, sig, pk, h);
    IsOneFlagIff([(g1, sig), (pk, h)]);
    MillerLoopPair(g1, sig, pk, h);
  }

  /** The seven flags are bits, and flags 2 to 7 are each 1 exactly when e(g1, sig) == e(pk, H). */
  lemma VerifyTestFlags(g1: G1Point, sig: G2Point, pk: G1Point, h: G2Point)
    ensures var flags := VerifyTest(g1, sig, pk, h);
      |flags| == 7 && (forall i :: 0 <= i < 7 ==> flags[i] == 0 || flags[i] == 1) &&
      forall i :: 1 <= i < 7 ==> (flags[i] == 1 <==> Pair(BN254_R, g1, sig) == Pair(BN254_R, pk, h))
  {
    var lists := VerifyTestPairs(g1, sig, pk, h);
    VerifyTestPairsShape(g1, sig, pk, h);
    forall i | 0 <= i < 7
      ensures IsOneFlag(lists[i]) == 0 || IsOneFlag(lists[i]) == 1
    {
      IsOneFlagIff(lists[i]);
    }
    IsOneFlagIff(lists[1]);
    IsOneFlagIff(lists[2]);
    CoreVerifyIff(BN254_P, BN254_R, g1, sig, pk, h);
    CoreVerifyIffNegatedHash(BN254_P, BN254_R, g1, sig, pk, h);
  }

  /** For a genuine key pair (pk = [sk]g1, sig = [sk]H) flags 2 to 7 are all 1. */
  lemma VerifyTestAcceptsGenuineSignature(g1: G1Point, sig: G2Point, pk: G1Point, h: G2Point, sk: int)
    requires (pk.dlog - sk * g1.dlog) % BN254_R == 0 && (sig.dlog - sk * h.dlog) % BN254_R == 0
    ensures forall i :: 1 <= i < 7 ==> VerifyTest(g1, sig, pk, h)[i] == 1
  {
    GenuineKeyPairPairs(BN254_R, g1, pk, sig, h, sk);
    VerifyTestFlags(g1, sig, pk, h);
  }

  /**
   * `bls_signature_verify_separate_test`: e(g1, sig) and e(pk, -H) by separate
   * pairings, their `mul_no_carry` product, an `is_zero(product - one)` whose
   * result is dropped, and the returned `is_equal(product, one)`.
   */
  function VerifySeparateTest(g1: G1Point, sig: G2Point, pk: G1Point, h: G2Point): (flag: int)
    ensures flag == 0 || flag == 1
    ensures flag == 1 <==>
      (Pair(BN254_R, g1, sig) + Pair(BN254_R, pk, Negate(BN254_P, BN254_R, h))) % BN254_R == 0
  {
    var paired1 := Pair(BN254_R, g1, sig);
    var paired2 := Pair(BN254_R, pk, NegateNativePoint(h));
    var product := GtMulNoCarry(paired1, paired2);
    var dropped := GtIsZeroOfSub(BN254_R, product, GT_ONE);
    GtIsEqual(BN254_R, product, GT_ONE)
  }

  /** The separate test returns 1 exactly when e(g1, sig) == e(pk, H), and 0 otherwise. */
  lemma VerifySeparateTestIff(g1: G1Point, sig: G2Point, pk: G1Point, h: G2Point)
    ensures VerifySeparateTest(g1, sig, pk, h) == 0 || VerifySeparateTest(g1, sig, pk, h) == 1
    ensures VerifySeparateTest(g1, sig, pk, h) == 1 <==> Pair(BN254_R, g1, sig) == Pair(BN254_R, pk, h)
  {
    var r := BN254_R;
    var nh := Negate(BN254_P, r, h);
    var e1 := Pair(r, g1, sig);
    var e2 := Pair(r, pk, nh);
    var exact := g1.dlog * sig.dlog + pk.dlog * nh.dlog;
    // e1 + e2 is congruent to the exact exponent sum
    ZeroSumOfCongruences(e1 - g1.dlog * sig.dlog, e2 - pk.dlog * nh.dlog, r);
    assert (e1 + e2) - exact == (e1 - g1.dlog * sig.dlog) + (e2 - pk.dlog * nh.dlog);
    Modular.CongruentIff(e1 + e2, exact, r);
    assert exact == pk.dlog * nh.dlog + g1.dlog * sig.dlog;
    SignFlip(r, pk.dlog, h.dlog, nh.dlog, g1.dlog, sig.dlog);
    Modular.UniqueRemainder(0, 0, 0, r);
    PairIsResidue(r, g1, sig);
    PairIsResidue(r, pk, h);
  }
}
