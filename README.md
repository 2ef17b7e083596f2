# BLS signature gadgets of halo2-ecc, modelled in Dafny

This project models the BLS signature gadgets of `halo2-ecc`. They build a
zero-knowledge circuit that checks a BLS signature over BN254 or BLS12-381.
Public keys are in G1, signatures and message hashes in G2.

The model covers:
- **The Frobenius shortcut on Fp2** (`Fp2Chip::frobenius_map`), in its three
  variants. Each checks that p ≡ 3 mod 4, p ≡ 1 mod 6 and that the input has
  two coefficients, then returns the conjugate `[a0, -a1 mod p]`.
- **The G2 subgroup gadget** `assert_in_g2`. It computes ψ(P) (BN254) or
  frob(P) (BLS12-381) and the coordinates of P scaled by x, x and 6. It never
  asserts an equality between them, so every point passes. The BLS12-381
  version as written also takes `6 * BLS_X * BLS_X` in `u128`, which
  overflows: a build with overflow checks panics there on every call.
- **`bls_signature_verify`.** It loads four points, asserts each on its
  curve, calls the subgroup gadget on the signature and then on the hash,
  negates the signature, and returns
  `final_exp(multi_miller_loop([(g1, -sig), (pk, H)]))`. That value is the
  pairing equation of CoreVerify in the BLS signature draft
  (draft-irtf-cfrg-bls-signature, section 2.7) with public keys in G1. The
  gadget is not all of CoreVerify: it has no KeyValidate step and its
  subgroup check checks nothing.
- **The BN254 test chips.** Seven multi-Miller loops. Loop 1 negates nothing.
  Loops 2-7 negate either sig or H, each by one of three routes: native
  negation, the G2 EC chip or the Fp12 EC chip. A second test chip pairs
  separately.

How the pieces are modelled:
- **Field values.** An Fp value is an integer. An Fp2 value `a0 + a1·u`
  (u² = −1) is a two-element `seq<int>`.
- **Points and pairing.** Points carry their coordinates and their discrete
  logarithm. The pairing chip is modelled through discrete logarithms:
  e(aG1, bG2) is the exponent a·b mod r, the identity of GT is 0, and a
  product in GT is a sum of exponents.
- **The circuit context.** It is a class with an append-only log of the steps
  the gadgets themselves issue. `Constraints(log)` lists the assertions among
  them and `SubgroupCalls(log)` lists the points handed to the subgroup
  gadget. This lets the model state the order of checks and the absence of a
  membership assertion. The constraints chip calls create internally (the
  FpChip `negate` inside the conjugation, the loads' range checks, the
  pairing chips) are not logged.
- **Build configuration.** Whether Rust's overflow checks are on is a
  parameter of the BLS12-381 gadgets: with them an overflow panics, without
  them the product wraps.

Modules:
- `Curves`: the constants.
- `MachineInt`: Rust's `u64 as i64`, and checked and wrapping unsigned multiplication.
- `Fields`: the Fp/Fp2 chip contracts and the Frobenius specification.
- `Pairing`: the discrete-log pairing model.
- `Circuit`: the context.
- `BlsVerify`: the verification composition both curves share.
- One module per source file: `Bn254BlsSignature`, `Bls12BlsSignature`,
  `Bls12FrobeniusMapFp2` and `Bn254BlsSignatureTest`.

Where the code's comments and the code itself differ, the model follows the code:
- **Subgroup check.** The doc comment of `assert_in_g2`
  (`bn254/bls_signature.rs` lines 74-76, `bls12_381/bls_signature.rs` lines
  148-150) says it checks ψ(P) = [λ]P for λ = t − 1 = 6·x², after
  Proposition 3 of El Housni, Guillevic and Piellard (eprint 2022/352). The
  FIXME above it in the BN254 file says the check does not work yet. The
  code emits no such equality. The model proves that the only assertions the
  verification gadgets themselves issue are the four on-curve checks.
- **Frobenius.** The commented-out branches (`bn254/bls_signature.rs`
  lines 40-51, `bls12_381/frobenius_map_fp2.rs` lines 45-50 and 64-70)
  multiply by a Frobenius coefficient. The live code only conjugates. The
  variants differ in what they read:
  - `bn254/bls_signature.rs` line 35 reads `FROBENIUS_COEFF_FQ2_C1[1]` and
    never uses it;
  - `bls12_381/frobenius_map_fp2.rs` line 56 reads `FROBENIUS_COEFF_FQ2_C1[pow]`
    and only prints it;
  - the `frobenius_map` of `bls12_381/bls_signature.rs` (lines 18-78) reads
    no coefficient, because its read at line 53 is commented out.
- **BLS12-381 scalars.** The doc comment asks for [6·x²]P. `Bls12BlsSignature.AssertInG2`
  and `Bls12BlsSignature.Verify` model the code as written: the scalings use
  `BLS_X as i64`, which wraps, and the `u128` product of line 191 overflows.
  The members named `...Intended` model what the comment asks for. They are
  the corrected half of the two findings below.

## Model

| member | source | states |
|---|---|---|
| Fields.Conjugate | halo2-ecc/src/bn254/bls_signature.rs:37 | conjugation keeps coefficient 0 and replaces coefficient 1 by its canonical negation modulo p |
| Fields.ConjugateInvolutive | halo2-ecc/src/bn254/bls_signature.rs:36-37 | on reduced input, conjugating twice returns the input and the conjugate is reduced |
| Fields.FrobeniusSpec | halo2-ecc/src/bn254/bls_signature.rs:19-60 | the Frobenius map succeeds exactly when p % 4 == 3, p % 6 == 1 and the input has two coefficients |
| Fields.FrobeniusGuards | halo2-ecc/src/bn254/bls_signature.rs:25-27 | the map fails iff p % 4 != 3, p % 6 != 1 or the input does not have 2 coefficients; the first failing guard is the one reported, with the wrong count |
| Fields.FrobeniusOutput | halo2-ecc/src/bn254/bls_signature.rs:36-59 | on success the output has exactly two coefficients, c0 equal to the input's and c1 the canonical negation of the input's |
| Fields.FrobeniusInvolutive | halo2-ecc/src/bn254/bls_signature.rs:36-37 | applying the map twice to a reduced input returns the input |
| Fields.CollectCoeffs | halo2-ecc/src/bn254/bls_signature.rs:53-57 | the collected vector has length 2n, with all coefficients 0 of the pushed values first, then all coefficients 1 |
| Fields.CollectSingle | halo2-ecc/src/bn254/bls_signature.rs:38-57 | with one pushed value, the collected coefficients are that value, c0 then c1 |
| Fields.NegateCoeffs | halo2-ecc/src/bn254/bls_signature.rs:180 | coefficient-wise negation keeps the length, is reduced, and each coefficient plus its input is 0 mod p |
| Fields.FqNeg | halo2-ecc/src/bn254/bls_signature_test.rs:40-41 | the native Fq negation (0 for 0, p − v otherwise) is reduced and is the additive inverse mod p |
| Fields.NegateNative | halo2-ecc/src/bn254/bls_signature_test.rs:40-41 | the native Fq2 negation `-signature`, `-msghash` is reduced and each coefficient plus its input is 0 mod p |
| Fields.NegateRoutesAgree | halo2-ecc/src/bn254/bls_signature_test.rs:40-51 | the native negation (p − v, or 0) and the chips' negation ((−x) mod p) give the same value |
| Fields.MulNoCarry | halo2-ecc/src/bn254/bls_signature.rs:102-103 | the no-carry Fp2 product restricts to the Fp product on base-field elements and gives u·u = −1 |
| Fields.Mul | halo2-ecc/src/bn254/bls_signature.rs:89-90 | Fq2 multiplication is reduced and congruent, coefficient by coefficient, to the schoolbook product with u² = −1 |
| Fields.ScalarMulNoCarry | halo2-ecc/src/bn254/bls_signature.rs:108-113 | scaling by the integer k is the no-carry product with the Fp2 element k + 0·u |
| Fields.ScalarMulChain | halo2-ecc/src/bn254/bls_signature.rs:108-113 | scaling by k1, then k2, then k3 is one scaling by k1·k2·k3 |
| Curves.ModuliShape | halo2-ecc/src/bn254/bls_signature.rs:25-26 | both base-field moduli are 3 mod 4 and 1 mod 6, so the Frobenius guards pass |
| Curves.Bn254FromParameter | halo2-ecc/src/bn254/bls_signature.rs:9-11 | the BN254 p and r are the BN polynomials in BN_X |
| Curves.Bls12381FromParameter | halo2-ecc/src/bls12_381/bls_signature.rs:8-10 | the BLS12-381 r is x⁴ − x² + 1 and p is (x − 1)²·r/3 + x, for x = −BLS_X |
| MachineInt.AsI64 | halo2-ecc/src/bn254/bls_signature.rs:108 | `u64 as i64` lands in the i64 range, is congruent mod 2^64, and keeps the value iff it is below 2^63 |
| MachineInt.MulChecked | halo2-ecc/src/bls12_381/bls_signature.rs:191 | a checked unsigned product exists iff it is below the type's bound, and then it is exact |
| MachineInt.MulWrapping | halo2-ecc/src/bls12_381/bls_signature.rs:191 | a wrapping unsigned product is below the bound, congruent to the true product, and exact when that fits |
| MachineInt.SixXSquaredExact | halo2-ecc/src/bn254/bls_signature.rs:117 | evaluating 6 * x * x left to right with checks fails iff 6·x² does not fit, and otherwise gives 6·x² |
| MachineInt.SixXSquaredWrapping | halo2-ecc/src/bls12_381/bls_signature.rs:191 | evaluating 6 * x * x left to right with wrapping gives 6·x² mod the bound |
| Pairing.Negate | halo2-ecc/src/bn254/bls_signature.rs:180 | negating a G2 point keeps x, negates y coefficient-wise and gives the additive inverse in the group of order r |
| Pairing.MillerLoop | halo2-ecc/src/bn254/bls_signature.rs:182-185 | the multi-Miller loop of no pairs is the identity, and of one pair is the product of the two logarithms |
| Pairing.FinalExp | halo2-ecc/src/bn254/bls_signature.rs:186 | the final exponentiation is the canonical representative of its input in GT |
| Pairing.Pair | halo2-ecc/src/bn254/bls_signature_test.rs:140 | e(P, Q) is canonical and congruent to dlog(P)·dlog(Q) mod r |
| Pairing.PairIsResidue | halo2-ecc/src/bn254/bls_signature_test.rs:140 | e(P, Q) is exactly (dlog(P)·dlog(Q)) mod r |
| Pairing.GtMulNoCarry | halo2-ecc/src/bn254/bls_signature_test.rs:149 | the GT product has the identity as its neutral element on either side |
| Pairing.GtMulNoCarryPairs | halo2-ecc/src/bn254/bls_signature_test.rs:140-149 | multiplying two separate pairings gives the same GT element as one two-pair multi-Miller loop with a final exponentiation |
| Pairing.GtIsEqual | halo2-ecc/src/bn254/bls_signature_test.rs:156 | `is_equal` returns a bit, which is 1 iff the two GT values agree mod r |
| Pairing.GtIsZeroOfSub | halo2-ecc/src/bn254/bls_signature_test.rs:152-153 | `is_zero(a - b)` gives the same bit as `is_equal(a, b)` |
| Pairing.MillerLoopAppend | halo2-ecc/src/bn254/bls_signature.rs:182-185 | the multi-Miller loop over a concatenation is the GT product of the two loops |
| Pairing.MillerLoopPair | halo2-ecc/src/bn254/bls_signature.rs:182-185 | the loop over two pairs is the sum of the two exponent products |
| Pairing.MultiPairingIsProduct | halo2-ecc/src/bn254/bls_signature.rs:182-186 | one multi-Miller loop plus one final exponentiation equals the product of the separate pairings |
| Pairing.SignFlip | halo2-ecc/src/bn254/bls_signature.rs:133-134 | with one G2 argument negated, the product check passes iff the two pairings are equal |
| Pairing.CoreVerifyIff | halo2-ecc/src/bn254/bls_signature.rs:178-187 | final_exp(loop([(g1, −sig), (pk, H)])) is the identity iff e(g1, sig) = e(pk, H) |
| Pairing.CoreVerifyIffNegatedHash | halo2-ecc/src/bn254/bls_signature_test.rs:63-67 | the same equivalence with H negated instead of sig |
| Pairing.GenuineKeyPairPairs | halo2-ecc/src/bn254/tests/bls_signature_test.rs:268-272 | pk = [sk]g1 and sig = [sk]H give e(g1, sig) = e(pk, H) |
| Pairing.WrongKeyDoesNotPair | halo2-ecc/src/bn254/bls_signature.rs:133-135 | pk = [sk]g1 and sig = [sk+1]H give e(g1, sig) ≠ e(pk, H) whenever e(g1, H) ≠ 1 |
| Circuit.ConstraintsSound | halo2-ecc/src/bn254/bls_signature.rs:136-143 | every step the constraint listing returns is an assertion, and the log holds it |
| Circuit.ConstraintsAppend | halo2-ecc/src/bn254/bls_signature.rs:136-143 | the constraints of a concatenated log are the constraints of the first part, then those of the second |
| Circuit.SubgroupCallsAppend | halo2-ecc/src/bn254/bls_signature.rs:136-143 | the subgroup calls of a concatenated log are those of the first part, then those of the second |
| Circuit.Context.Emit | halo2-ecc/src/bn254/bls_signature.rs:138 | a chip call appends exactly its step to the context's log and changes nothing already emitted |
| BlsVerify.LoadAndCheckOnCurve | halo2-ecc/src/bn254/bls_signature.rs:146-171 | appends the four loads, then the four on-curve assertions, in the order g1, sig, pk, H |
| BlsVerify.NegateAndPair | halo2-ecc/src/bn254/bls_signature.rs:178-187 | appends the negation, the multi-Miller loop and the final exponentiation, and returns final_exp(loop([(g1, −sig), (pk, H)])) |
| BlsVerify.TraceConstraints | halo2-ecc/src/bn254/bls_signature.rs:146-171 | when the subgroup steps constrain nothing, the only assertions verification issues are the on-curve checks of g1, sig, pk, H in that order |
| BlsVerify.TraceSubgroupCalls | halo2-ecc/src/bn254/bls_signature.rs:163-176 | the loads, on-curve checks and pairing steps call the subgroup gadget on no point |
| BlsVerify.VerifyValueIff | halo2-ecc/src/bn254/bls_signature.rs:178-187 | the returned value is the GT identity iff e(g1, sig) = e(pk, H), for either curve |
| BlsVerify.AcceptsGenuineSignature | halo2-ecc/src/bn254/bls_signature.rs:133-135 | for a genuine key pair, verification returns the identity |
| BlsVerify.RejectsWrongKey | halo2-ecc/src/bn254/bls_signature.rs:133-135 | a signature made with the key sk+1 does not return the identity when e(g1, H) ≠ 1 |
| Bn254BlsSignature.FrobeniusMap | halo2-ecc/src/bn254/bls_signature.rs:19-60 | the method returns exactly the Frobenius specification (guards, then conjugate); the frob_coeff it reads does not influence the result |
| Bn254BlsSignature.PsiCoefficients | halo2-ecc/src/bn254/bls_signature.rs:88-90 | coeff_over_3 = c² and coeff_over_2 = c³ in Fq2, for c = FROBENIUS_COEFF_FQ12_C1[1] |
| Bn254BlsSignature.MachineWidthsSuffice | halo2-ecc/src/bn254/bls_signature.rs:108-117 | `BN_X as i64` is BN_X, and 6 * BN_X * BN_X in u128 does not overflow and equals λ |
| Bn254BlsSignature.SubgroupStep | halo2-ecc/src/bn254/bls_signature.rs:101-113 | the gadget's step is a subgroup record of P and is not a constraint |
| Bn254BlsSignature.AssertInG2 | halo2-ecc/src/bn254/bls_signature.rs:77-131 | appends ψ(P) = (c²·frob(x), c³·frob(y)) and [λ]P's coordinates, and leaves the constraints unchanged |
| Bn254BlsSignature.Verify | halo2-ecc/src/bn254/bls_signature.rs:136-188 | appends loads, on-curve checks, two subgroup steps (sig, then H) and the pairing steps; the result is the identity iff e(g1, sig) = e(pk, H) |
| Bn254BlsSignature.VerifyConstraints | halo2-ecc/src/bn254/bls_signature.rs:146-176 | the only assertions verification issues are the four on-curve checks |
| Bn254BlsSignature.VerifySubgroupCalls | halo2-ecc/src/bn254/bls_signature.rs:173-176 | the subgroup gadget runs on sig, then H, and on nothing else |
| Bls12BlsSignature.FrobeniusMap | halo2-ecc/src/bls12_381/bls_signature.rs:19-78 | returns exactly the Frobenius specification: one conjugated value, whatever the reserved capacity |
| Bls12BlsSignature.ScalarAsWritten | halo2-ecc/src/bls12_381/bls_signature.rs:174 | `BLS_X as i64` is BLS_X − 2^64, a negative number |
| Bls12BlsSignature.LambdaChainAsWritten | halo2-ecc/src/bls12_381/bls_signature.rs:174-179 | the three scalings as written are one scaling by (BLS_X − 2^64)²·6 = 65910205501223324410397572940458622976 |
| Bls12BlsSignature.LambdaChainAsWrittenDiffers | halo2-ecc/src/bls12_381/bls_signature.rs:174-179 | the as-written scalings multiply a nonzero coordinate by something other than λ = 6·BLS_X² |
| Bls12BlsSignature.LambdaU128AsWrittenOverflows | halo2-ecc/src/bls12_381/bls_signature.rs:191 | 6·BLS_X fits in u128, but λ does not, so the checked product with the second BLS_X overflows |
| Bls12BlsSignature.LambdaU128AsWritten | halo2-ecc/src/bls12_381/bls_signature.rs:191 | the u128 product panics exactly in a build with overflow checks; otherwise it is λ mod 2^128, which is not λ |
| Bls12BlsSignature.LambdaChain | halo2-ecc/src/bls12_381/bls_signature.rs:174-179 | scaling by BLS_X, BLS_X, then 6 is scaling by λ |
| Bls12BlsSignature.LambdaU256 | halo2-ecc/src/bls12_381/bls_signature.rs:191 | in checked 256-bit arithmetic the product does not overflow and is exactly λ |
| Bls12BlsSignature.SubgroupStep | halo2-ecc/src/bls12_381/bls_signature.rs:159-179 | the as-written step is a subgroup record of P, not a constraint, and holds P's coordinates scaled by (BLS_X − 2^64)²·6 |
| Bls12BlsSignature.AssertInG2 | halo2-ecc/src/bls12_381/bls_signature.rs:151-206 | as written: appends the step and leaves the constraints unchanged, then panics at the u128 product exactly when overflow checks are on |
| Bls12BlsSignature.Verify | halo2-ecc/src/bls12_381/bls_signature.rs:94-146 | as written: with overflow checks it stops in the first subgroup call with no result, after the loads, on-curve checks and that call's step; without them it runs to the end, and the result is the identity iff e(g1, sig) = e(pk, H) |
| Bls12BlsSignature.VerifyConstraints | halo2-ecc/src/bls12_381/bls_signature.rs:104-146 | when verification runs to the end, its only assertions are the four on-curve checks |
| Bls12BlsSignature.PanicConstraints | halo2-ecc/src/bls12_381/bls_signature.rs:104-132 | when the first subgroup call panics, the four on-curve checks are the only assertions issued |
| Bls12BlsSignature.VerifySubgroupCalls | halo2-ecc/src/bls12_381/bls_signature.rs:121-134 | the subgroup gadget runs on sig, then H; g1 and pk get only an on-curve check |
| Bls12BlsSignature.SubgroupStepIntended | halo2-ecc/src/bls12_381/bls_signature.rs:159-179 | the intended step is not a constraint and holds P's coordinates scaled by λ = 6·BLS_X² |
| Bls12BlsSignature.AssertInG2Intended | halo2-ecc/src/bls12_381/bls_signature.rs:151-206 | the intended gadget appends frob(x), frob(y) and [λ]P's coordinates, and leaves the constraints unchanged |
| Bls12BlsSignature.VerifyIntended | halo2-ecc/src/bls12_381/bls_signature.rs:94-146 | the intended verification always returns, and the result is the identity iff e(g1, sig) = e(pk, H) |
| Bls12BlsSignature.VerifyIntendedConstraints | halo2-ecc/src/bls12_381/bls_signature.rs:104-146 | the intended verification's only assertions are the four on-curve checks |
| Bls12BlsSignature.VerifyIntendedSubgroupCalls | halo2-ecc/src/bls12_381/bls_signature.rs:121-134 | the intended verification calls the subgroup gadget on sig, then H |
| Bls12FrobeniusMapFp2.FrobeniusMap | halo2-ecc/src/bls12_381/frobenius_map_fp2.rs:21-80 | for every power the result is the Frobenius specification; `power % 2` indexes the two-entry table in bounds |
| Bn254BlsSignatureTest.NegateNativePoint | halo2-ecc/src/bn254/bls_signature_test.rs:40-51 | native negation of a G2 point equals the G2-chip and Fp12-chip negation |
| Bn254BlsSignatureTest.VerifyTestPairsShape | halo2-ecc/src/bn254/bls_signature_test.rs:53-90 | seven loops, each pairing g1 first and pk second; loops 2, 4, 5 are identical (sig negated) and loops 3, 6, 7 are identical (H negated) |
| Bn254BlsSignatureTest.IsOneFlagIff | halo2-ecc/src/bn254/bls_signature_test.rs:96-104 | a flag is a bit, and it is 1 iff the Miller-loop output is a multiple of r |
| Bn254BlsSignatureTest.VerifyTest | halo2-ecc/src/bn254/bls_signature_test.rs:21-105 | seven flags, each a bit that is 1 iff its loop's final exponentiation is the identity |
| Bn254BlsSignatureTest.FirstFlag | halo2-ecc/src/bn254/bls_signature_test.rs:53-57 | flag 1 is 1 iff dlog(g1)·dlog(sig) + dlog(pk)·dlog(H) ≡ 0 mod r |
| Bn254BlsSignatureTest.VerifyTestFlags | halo2-ecc/src/bn254/bls_signature_test.rs:96-104 | seven bits; flags 2 to 7 are each 1 iff e(g1, sig) = e(pk, H), so they are all equal |
| Bn254BlsSignatureTest.VerifyTestAcceptsGenuineSignature | halo2-ecc/src/bn254/bls_signature_test.rs:98-103 | for a genuine key pair, flags 2 to 7 are 1 |
| Bn254BlsSignatureTest.VerifySeparateTest | halo2-ecc/src/bn254/bls_signature_test.rs:125-157 | the separate test returns a bit that is 1 iff e(g1, sig) · e(pk, −H) is the identity |
| Bn254BlsSignatureTest.VerifySeparateTestIff | halo2-ecc/src/bn254/bls_signature_test.rs:125-157 | the separate test returns a bit that is 1 iff e(g1, sig) = e(pk, H); the dropped `is_zero` does not affect it |

## Left out

- The chips the gadgets call are modelled only by the contracts above, not by their limbs, CRT integers, Miller-loop steps or range checks. These chips are FpChip, Fp2Chip, Fp12Chip, EccChip and PairingChip. Their files (`bigint`, `fields`, `ecc`, `bn254/pairing`) are not part of this model.
- On-curve checks are recorded as constraints, but whether a point actually satisfies its curve equation is not modelled.
- A point's coordinates and its discrete logarithm are not linked. The field gadgets use the coordinates and the pairing uses the logarithm.
- Pairing.CoreVerifyIff, BlsVerify.VerifyValueIff, the `Verify` methods, Bn254BlsSignatureTest.VerifyTestFlags and Bn254BlsSignatureTest.VerifySeparateTestIff: every point carries a logarithm with respect to the generator of its order-r group, so these results hold for points of G1 × G2 only. The model cannot express an on-curve G2 point outside the subgroup, which is exactly what the no-op `assert_in_g2` lets through, and it says nothing about what the gadgets return on such points.
- Constraints created inside chip calls are not logged. These are the FpChip `negate` inside the conjugation, the loads' range checks, the carry gates and the pairing chips' gates. `Constraints(log)` lists only the assertions the gadgets themselves issue.
- Bn254BlsSignatureTest.VerifyTest and Bn254BlsSignatureTest.VerifySeparateTest: the `one` they compare against (bls_signature_test.rs:93 and :151) is loaded with `load_private`, an unconstrained private witness, not a constant. The model assumes an honest witness equal to the GT identity. The circuit does not constrain `one` to 1, so the flags mean what the model says only for an honest prover.
- The Fp12 EC chip's `negate` (bn254/bls_signature.rs:180, bls12_381/bls_signature.rs:138, bls_signature_test.rs:50-51) is handed the Fp2-coordinate point itself. The model gives it the same contract as the G2-chip negation. How the Fp12 chip treats Fp2 coordinates is not modelled.
- Pairing.GtIsEqual: `is_equal` on an uncarried `mul_no_carry` product is modelled as equality mod r. Comparison of unreduced limbs is not modelled.
- Bn254BlsSignatureTest.VerifySeparateTestIff: Pairing.GtMulNoCarry is the exact GT product, so the model cannot tell the uncarried `mul_no_carry` output (bls_signature_test.rs:149) from a carried one. The flag is correct only if `is_equal` (line 156) compares the uncarried product with `one` modulo p. Whether it does is not modelled.
- Debug output (`println!`, `print_type_of`) is left out, and so is the unused `XI_0` constant. `actual_lambda_Px` is computed in the model. It is never read in the BN254 code and is read only by debug output (`println!`, line 196) in the BLS12-381 code.
- Commented-out code is not modelled.
- Bls12FrobeniusMapFp2.FrobeniusMap: `power` is a `nat`, not a `usize`. Only `power % 2` is used, so the width does not matter.
- Bn254BlsSignature.MachineWidthsSuffice: the BN254 λ is evaluated with overflow checks only. It fits in `u128`, so a wrapping build computes the same value (MachineInt.MulWrapping is exact when the product fits).
- Bls12BlsSignature.Verify: a panic is modelled as a `None` result, with the log as the panicking call left it. Rust unwinds and no circuit is produced, so that log is never used.
- `bls12_381` is not declared in `halo2-ecc/src/lib.rs`, so neither BLS12-381 file is compiled in the repository. Both are modelled as written. Their two `Fp2Chip::frobenius_map` definitions conflict in Rust, so they are separate members here.
- Bls12BlsSignature.SubgroupStepIntended: the intended gadget keeps the scalar 6·x² that the comment names. The model makes no claim that 6·x² is the right subgroup test for BLS12-381. The gadget compares nothing either way.
- The test harnesses under `halo2-ecc/src/bn254/tests/` are not modelled: randomness, config files, MockProver and keygen/prove benchmarks. Their key-pair setup only motivates Pairing.GenuineKeyPairPairs.
- `halo2-ecc/src/wasm.rs` and `react_app/` are not modelled: bindings, UI, worker threads. No aggregate verifier exists in the core, so none is modelled.

## Findings

| source | as written | input that shows it | evidently intended | confidence | as-written member | corrected member |
|---|---|---|---|---|---|---|
| halo2-ecc/src/bls12_381/bls_signature.rs:174-179 | the three `scalar_mul_no_carry` calls use `BLS_X as i64` | BLS_X = 0xd201000000010000 ≥ 2^63, so the cast gives −3314367850767908864. Any P whose x has a nonzero coefficient is then scaled by 65910205501223324410397572940458622976 instead of λ = 1373932860915897468389121461762364801024 | scale by BLS_X twice and by 6, so the coordinates are multiplied by 6·BLS_X² | not executed | Bls12BlsSignature.LambdaChainAsWritten (with Bls12BlsSignature.LambdaChainAsWrittenDiffers), used by Bls12BlsSignature.AssertInG2 | Bls12BlsSignature.LambdaChain, used by Bls12BlsSignature.AssertInG2Intended |
| halo2-ecc/src/bls12_381/bls_signature.rs:191 | `6 * u128::from(BLS_X) * u128::from(BLS_X)` | every call: 6·BLS_X = 90794257337649856512 fits, but 6·BLS_X² = 1373932860915897468389121461762364801024 ≥ 2^128, so the second multiplication overflows. With overflow checks every `assert_in_g2`, and so every `bls_signature_verify`, panics; without them λ wraps to 12803393232143614535623032035291955200 | λ = 6·BLS_X² computed in a type wide enough for it | not executed | Bls12BlsSignature.LambdaU128AsWritten (with Bls12BlsSignature.LambdaU128AsWrittenOverflows), used by Bls12BlsSignature.AssertInG2 and Bls12BlsSignature.Verify | Bls12BlsSignature.LambdaU256, used by Bls12BlsSignature.AssertInG2Intended and Bls12BlsSignature.VerifyIntended |
