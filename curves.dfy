/** Curve constants of BN254 (halo2curves `bn256`) and BLS12-381 (halo2curves `bls12_381`). */
module Curves {

  /** Modulus of the BN254 base field Fq. */
  const BN254_P: int := 21888242871839275222246405745257275088696311157297823662689037894645226208583
  /** Order of the BN254 groups G1, G2 and GT. */
  const BN254_R: int := 21888242871839275222246405745257275088548364400416034343698204186575808495617
  /** The BN254 curve parameter `BN_X` (a `u64`). */
  const BN_X: nat := 4965661367192848881

  /** `FROBENIUS_COEFF_FQ2_C1` of BN254: (-1)^((p^k - 1)/2) for k = 0, 1, that is [1, -1]. */
  const BN254_FROBENIUS_COEFF_FQ2_C1: seq<int> := [1, BN254_P - 1]
  /** `FROBENIUS_COEFF_FQ12_C1[1]` of BN254: xi^((p - 1)/6) for xi = 9 + u, as [c0, c1]. */
  const BN254_FROBENIUS_COEFF_FQ12_C1_1: seq<int> :=
    [8376118865763821496583973867626364092589906065868298776909617916018768340080,
     16469823323077808223889137241176536799009286646108169935659301613961712198316]

  /** Modulus of the BLS12-381 base field Fq. */
  const BLS12_381_P: int := 0x1a0111ea397fe69a4b1ba7b6434bacd764774b84f38512bf6730d2a0f6b0f6241eabfffeb153ffffb9feffffffffaaab
  /** Order of the BLS12-381 groups G1, G2 and GT. */
  const BLS12_381_R: int := 0x73eda753299d7d483339d80809a1d80553bda402fffe5bfeffffffff00000001
  /** The BLS12-381 parameter `BLS_X` (a `u64`; the curve's x is its negation). */
  const BLS_X: nat := 0xd201_0000_0001_0000

  /** `FROBENIUS_COEFF_FQ2_C1` of BLS12-381: [1, -1]. */
  const BLS12_381_FROBENIUS_COEFF_FQ2_C1: seq<int> := [1, BLS12_381_P - 1]
  /** `FROBENIUS_COEFF_FQ12_C1[1]` of BLS12-381: xi^((p - 1)/6) for xi = 1 + u, as [c0, c1]. */
  const BLS12_381_FROBENIUS_COEFF_FQ12_C1_1: seq<int> :=
    [3850754370037169011952147076051364057158807420970682438676050522613628423219637725072182697113062777891589506424760,
     151655185184498381465642749684540099398075398968325446656007613510403227271200139370504932015952886146304766135027]

  /** The BN254 moduli are the BN polynomials evaluated at `BN_X`. */
  lemma Bn254FromParameter()
    ensures BN254_P == 36 * BN_X * BN_X * BN_X * BN_X + 36 * BN_X * BN_X * BN_X + 24 * BN_X * BN_X + 6 * BN_X + 1
    ensures BN254_R == 36 * BN_X * BN_X * BN_X * BN_X + 36 * BN_X * BN_X * BN_X + 18 * BN_X * BN_X + 6 * BN_X + 1
  {
  }

  /** The BLS12-381 moduli are the BLS12 polynomials evaluated at x = -BLS_X. */
  lemma Bls12381FromParameter()
    ensures BLS12_381_R == BLS_X * BLS_X * BLS_X * BLS_X - BLS_X * BLS_X + 1
    ensures 3 * (BLS12_381_P + BLS_X) == (BLS_X + 1) * (BLS_X + 1) * BLS12_381_R
  {
  }

  /** Both base fields have the shape the Fp2 Frobenius shortcut needs. */
  lemma ModuliShape()
    ensures BN254_P % 4 == 3 && BN254_P % 6 == 1
    ensures BLS12_381_P % 4 == 3 && BLS12_381_P % 6 == 1
  {
  }
}
