/**
 * Discrete-logarithm model of the points and of the pairing chip.
 * A point carries its affine coordinates (what the field gadgets see) and its
 * discrete logarithm with respect to the fixed generator of its group (what the
 * pairing sees). A target-group value is the exponent of e(G1, G2) it equals,
 * so the GT identity is 0 and a product of GT values is a sum of exponents.
 */
module Pairing {
  import opened Fields
  import Modular

  datatype G1Point = G1Point(x: int, y: int, dlog: int)

  datatype G2Point = G2Point(x: Fq2, y: Fq2, dlog: int)

  /** A pair handed to the multi-Miller loop: the G1 point, then the G2 point. */
  type PairInput = (G1Point, G2Point)

  /** The target-group identity, `Fq12::one()`. */
  const GT_ONE: int := 0

  /** `negate` of a G2 point (native, G2 chip or Fp12 chip): y negated, -Q as a group element. */
  function Negate(p: int, r: int, q: G2Point): (n: G2Point)
    requires p > 1 && r > 1
    ensures n.x == q.x && n.y == NegateCoeffs(p, q.y)
    ensures 0 <= n.dlog < r && (n.dlog + q.dlog) % r == 0
  {
    G2Point(q.x, NegateCoeffs(p, q.y), Modular.Neg(r, q.dlog))
  }

  /**
   * `multi_miller_loop`: the exponent final exponentiation maps to the
   * multi-pairing. No pairs give the identity, one pair the product of its logarithms.
   */
  function MillerLoop(pairs: seq<PairInput>): (m: int)
    ensures pairs == [] ==> m == GT_ONE
    ensures |pairs| == 1 ==> m == pairs[0].0.dlog * pairs[0].1.dlog
  {
    if pairs == [] then 0 else pairs[0].0.dlog * pairs[0].1.dlog + MillerLoop(pairs[1..])
  }

  /** `final_exp`: the canonical target-group value of a Miller-loop output. */
  function FinalExp(r: int, m: int): (v: int)
    requires r > 1
    ensures 0 <= v < r && (v - m) % r == 0
  {
    Modular.Reduce(r, m)
  }

  /** `pairing(Q, P)`: the optimal Ate pairing e(P, Q), one Miller loop and one final exponentiation. */
  function Pair(r: int, P: G1Point, Q: G2Point): (e: int)
    requires r > 1
    ensures 0 <= e < r && (e - P.dlog * Q.dlog) % r == 0
  {
    FinalExp(r, MillerLoop([(P, Q)]))
  }

  /** Fp12 `mul_no_carry` of two target-group values: their product, left unreduced. */
  function GtMulNoCarry(a: int, b: int): (m: int)
    ensures a == GT_ONE ==> m == b
    ensures b == GT_ONE ==> m == a
  {
    a + b
  }

  /** Fp12 `is_equal`: 1 exactly when the two values are the same target-group element. */
  function GtIsEqual(r: int, a: int, b: int): (flag: int)
    requires r > 1
    ensures flag == 0 || flag == 1
    ensures flag == 1 <==> a % r == b % r
  {
    if a % r == b % r then 1 else 0
  }

  /** Fp12 `sub_no_carry` then `is_zero`: 1 exactly when the difference vanishes. */
  function GtIsZeroOfSub(r: int, a: int, b: int): (flag: int)
    requires r > 1
    ensures flag == GtIsEqual(r, a, b)
  {
    Modular.CongruentIff(a, b, r);
    if (a - b) % r == 0 then 1 else 0
  }

  /** The Miller loop over a concatenation is the product of the two loops. */
  lemma {:induction false} MillerLoopAppend(a: seq<PairInput>, b: seq<PairInput>)
    ensures MillerLoop(a + b) == MillerLoop(a) + MillerLoop(b)
  {
    if a == [] {
      assert a + b == b;
    } else {
      assert (a + b)[1..] == a[1..] + b;
      MillerLoopAppend(a[1..], b);
    }
  }

  /** The product of separate pairings, one per pair (as a sum of exponents). */
  function PairingProduct(r: int, pairs: seq<PairInput>): (e: int)
    requires r > 1
  {
    if pairs == [] then 0 else Pair(r, pairs[0].0, pairs[0].1) + PairingProduct(r, pairs[1..])
  }

  /**
   * One multi-Miller loop followed by one final exponentiation equals the product
   * of the separate pairings: the reason the verifier pays for one final_exp only.
   */
  lemma {:induction false} MultiPairingIsProduct(r: int, pairs: seq<PairInput>)
    requires r > 1
    ensures FinalExp(r, MillerLoop(pairs)) == FinalExp(r, PairingProduct(r, pairs))
  {
    if pairs != [] {
      MultiPairingIsProduct(r, pairs[1..]);
      var head := pairs[0].0.dlog * pairs[0].1.dlog;
      var e := Pair(r, pairs[0].0, pairs[0].1);
      var m := MillerLoop(pairs[1..]);
      var s := PairingProduct(r, pairs[1..]);
      // head == e and m == s modulo r, hence head + m == e + s modulo r
      Modular.CongruentIff(e, head, r);
      Modular.CongruentIff(FinalExp(r, m), m, r);
      Modular.CongruentIff(FinalExp(r, s), s, r);
      assert m % r == s % r;
      Modular.CongruentIff(m, s, r);
      ZeroSumOfCongruences(e - head, m - s, r);
      assert (e + s) - (head + m) == (e - head) + (s - m);
      Modular.CongruentIff(e + s, head + m, r);
      Modular.CongruentIff(FinalExp(r, head + m), head + m, r);
      Modular.CongruentIff(FinalExp(r, e + s), e + s, r);
      Modular.UniqueRemainder(FinalExp(r, head + m), 0, FinalExp(r, head + m), r);
      Modular.UniqueRemainder(FinalExp(r, e + s), 0, FinalExp(r, e + s), r);
    }
  }

  /**
   * Two separate pairings multiplied with `mul_no_carry` land on the same GT
   * element as one two-pair multi-Miller loop.
   */
  lemma GtMulNoCarryPairs(r: int, P1: G1Point, Q1: G2Point, P2: G1Point, Q2: G2Point)
    requires r > 1
    ensures FinalExp(r, GtMulNoCarry(Pair(r, P1, Q1), Pair(r, P2, Q2)))
         == FinalExp(r, MillerLoop([(P1, Q1), (P2, Q2)]))
  {
    var pairs := [(P1, Q1), (P2, Q2)];
    var tail := [(P2, Q2)];
    assert pairs[1..] == tail;
    assert tail[1..] == [];
    assert PairingProduct(r, tail) == Pair(r, P2, Q2);
    assert PairingProduct(r, pairs) == Pair(r, P1, Q1) + PairingProduct(r, tail);
    MultiPairingIsProduct(r, pairs);
  }

  lemma ZeroSumOfCongruences(x: int, y: int, r: int)
    requires r > 0 && x % r == 0 && y % r == 0
    ensures (x - y) % r == 0 && (x + y) % r == 0
  {
    Modular.ZeroPlus(x, y, r);
    Modular.ZeroPlus(x, -y, r);
    Modular.MultipleScaled(y, -1, r);
  }

  /**
   * Replacing one G2 argument by its negation turns the product check into the
   * equality check: e(a, nb) * e(c, d) == 1  iff  e(a, b) == e(c, d), when nb = -b.
   */
  lemma SignFlip(r: int, a: int, b: int, nb: int, c: int, d: int)
    requires r > 1 && (nb + b) % r == 0
    ensures (a * nb + c * d) % r == 0 <==> (a * b) % r == (c * d) % r
  {
    Modular.MultipleScaled(nb + b, a, r);
    assert a * (nb + b) == a * nb + a * b;
    // (a*nb + c*d) - (c*d - a*b) is the multiple a*(nb + b)
    assert (a * nb + c * d) == a * (nb + b) + (c * d - a * b);
    Modular.ZeroPlus(a * (nb + b), c * d - a * b, r);
    Modular.CongruentIff(c * d, a * b, r);
  }

  /** The CoreVerify equation: e(g1, -sig) * e(pk, H) is the identity iff e(g1, sig) == e(pk, H). */
  lemma CoreVerifyIff(p: int, r: int, g1: G1Point, sig: G2Point, pk: G1Point, h: G2Point)
    requires p > 1 && r > 1
    ensures FinalExp(r, MillerLoop([(g1, Negate(p, r, sig)), (pk, h)])) == GT_ONE
        <==> Pair(r, g1, sig) == Pair(r, pk, h)
  {
    var ns := Negate(p, r, sig);
    MillerLoopPair(g1, ns, pk, h);
    SignFlip(r, g1.dlog, sig.dlog, ns.dlog, pk.dlog, h.dlog);
    PairIsResidue(r, g1, sig);
    PairIsResidue(r, pk, h);
  }

  /** The same equation with the hash-side point negated instead. */
  lemma CoreVerifyIffNegatedHash(p: int, r: int, g1: G1Point, sig: G2Point, pk: G1Point, h: G2Point)
    requires p > 1 && r > 1
    ensures FinalExp(r, MillerLoop([(g1, sig), (pk, Negate(p, r, h))])) == GT_ONE
        <==> Pair(r, g1, sig) == Pair(r, pk, h)
  {
    var nh := Negate(p, r, h);
    MillerLoopPair(g1, sig, pk, nh);
    assert g1.dlog * sig.dlog + pk.dlog * nh.dlog == pk.dlog * nh.dlog + g1.dlog * sig.dlog;
    SignFlip(r, pk.dlog, h.dlog, nh.dlog, g1.dlog, sig.dlog);
    PairIsResidue(r, g1, sig);
    PairIsResidue(r, pk, h);
  }

  lemma MillerLoopPair(a: G1Point, b: G2Point, c: G1Point, d: G2Point)
    ensures MillerLoop([(a, b), (c, d)]) == a.dlog * b.dlog + c.dlog * d.dlog
  {
    assert [(a, b), (c, d)][1..] == [(c, d)];
    assert [(c, d)][1..] == [];
    assert MillerLoop([(c, d)]) == c.dlog * d.dlog + MillerLoop([]);
  }

  lemma PairIsResidue(r: int, P: G1Point, Q: G2Point)
    requires r > 1
    ensures Pair(r, P, Q) == (P.dlog * Q.dlog) % r
  {
    var e := Pair(r, P, Q);
    Modular.CongruentIff(e, P.dlog * Q.dlog, r);
    Modular.UniqueRemainder(e, 0, e, r);
  }

  /** A genuine key pair (pk = [sk]g1, sig = [sk]H) satisfies the pairing equation. */
  lemma GenuineKeyPairPairs(r: int, g1: G1Point, pk: G1Point, sig: G2Point, h: G2Point, sk: int)
    requires r > 1
    requires (pk.dlog - sk * g1.dlog) % r == 0 && (sig.dlog - sk * h.dlog) % r == 0
    ensures Pair(r, g1, sig) == Pair(r, pk, h)
  {
    PairIsResidue(r, g1, sig);
    PairIsResidue(r, pk, h);
    Modular.MultipleScaled(sig.dlog - sk * h.dlog, g1.dlog, r);
    Modular.MultipleScaled(pk.dlog - sk * g1.dlog, h.dlog, r);
    assert g1.dlog * (sig.dlog - sk * h.dlog) == g1.dlog * sig.dlog - sk * g1.dlog * h.dlog;
    assert h.dlog * (pk.dlog - sk * g1.dlog) == pk.dlog * h.dlog - sk * g1.dlog * h.dlog;
    ZeroSumOfCongruences(g1.dlog * (sig.dlog - sk * h.dlog), h.dlog * (pk.dlog - sk * g1.dlog), r);
    assert g1.dlog * (sig.dlog - sk * h.dlog) - h.dlog * (pk.dlog - sk * g1.dlog)
        == g1.dlog * sig.dlog - pk.dlog * h.dlog;
    Modular.CongruentIff(g1.dlog * sig.dlog, pk.dlog * h.dlog, r);
  }

  /**
   * A signature made with the wrong key, sig = [sk + 1]H for pk = [sk]g1, does
   * not satisfy the pairing equation unless e(g1, H) is itself the identity.
   */
  lemma WrongKeyDoesNotPair(r: int, g1: G1Point, pk: G1Point, sig: G2Point, h: G2Point, sk: int)
    requires r > 1
    requires (pk.dlog - sk * g1.dlog) % r == 0 && (sig.dlog - (sk + 1) * h.dlog) % r == 0
    requires (g1.dlog * h.dlog) % r != 0
    ensures Pair(r, g1, sig) != Pair(r, pk, h)
  {
    PairIsResidue(r, g1, sig);
    PairIsResidue(r, pk, h);
    var a := g1.dlog * (sig.dlog - (sk + 1) * h.dlog);
    var b := h.dlog * (pk.dlog - sk * g1.dlog);
    Modular.MultipleScaled(sig.dlog - (sk + 1) * h.dlog, g1.dlog, r);
    Modular.MultipleScaled(pk.dlog - sk * g1.dlog, h.dlog, r);
    ZeroSumOfCongruences(a, b, r);
    assert g1.dlog * sig.dlog - pk.dlog * h.dlog == (a - b) + g1.dlog * h.dlog;
    Modular.ZeroPlus(a - b, g1.dlog * h.dlog, r);
    Modular.CongruentIff(g1.dlog * sig.dlog, pk.dlog * h.dlog, r);
  }
}
