# Verified model of the passkey wallet's arithmetic and accounting

The wallet authenticates users with P-256 passkeys on the EVM. It ships the signature check twice: as a
Solidity contract in XYZZ coordinates (`P256Verifier.sol`) and as a Yul program in projective Montgomery
coordinates (`P256VERIFY.yul`). It also holds an older Jacobian implementation (`SECP256R1.sol`), the
full-precision `mulDiv` in two versions, the Uniswap fee logic, the token vault, the verifying paymaster,
the packing of validation data and Base64URL.

This project models that code and proves what it computes. The main results:

* **The two verifiers agree.** For all words, `ecdsa_verify` returns true exactly when the Yul program
  returns 1. On malformed input the first returns false and the second burns its gas; on all other input
  the word returned is the same bit (`P256.P256VerifiersAgree`). Both loops are shown to follow one ladder
  over the affine group rule, so the agreement does not need the associativity of that rule.
* **Both decide the acceptance of section 4.1.4 of SEC 1 v2.0**, when the group rule is associative.
* **Every coordinate formula refines the affine group rule**, for every choice of scale: XYZZ,
  projective Montgomery and Jacobian doubling and addition, with infinity, equal points and opposite points.
* **Montgomery reduction, the binary extended Euclid with its carry repair, Fermat's theorem and the
  Fermat inverse** are proved from the definitions of the EVM's opcodes.
* **`jAdd` of SECP256R1 takes two equal finite points to infinity.** It is the group rule on all other
  pairs. The table and the 2-bit window loop are described exactly for every curve point as key and all scalars, and they
  are right exactly under conditions on the key and on the run (`Window.TableRightIff`, `Window.RunRightIff`).
  `JacobianVerifier.AgreesIff` says when the decision of its `verify` is the acceptance of SEC 1.
* **`mulDiv` with wrapping arithmetic is the exact quotient on all words.** The copy in `CustomFullMath.sol`
  has the same body without `unchecked`; it reverts on wide products unless the denominator is a power of
  two, and `FullMath.CheckedMeetsDocumentation` says exactly where it meets its documentation.
* **In every run the vault holds at least the sum of all recorded deposits, token by token**, and every
  recorded deposit is what was deposited less what was withdrawn or claimed; the vault's balance is exactly its
  deposits, its holdings at deployment and gifts.
* **In every run the paymaster commits each authorisation at most once, and only if the trusted signer signed
  it**, across batches and transactions that revert.

## Layout

`Congruence`, `NumberTheory`, `Words` and `FieldArith` are the arithmetic that the rest stands on. `Curve`,
`Ladder` and `Ecdsa` are the reference: the affine group rule, the interleaved double-and-add ladder, and
signature acceptance. `Montgomery`, `BinaryEuclid`, `Projective` and `YulVerifier` model the Yul program;
`XYZZ` and `SolidityVerifier` the Solidity contract; `P256` joins the two on the actual constants.
`Jacobian`, `Window` and `JacobianVerifier` model SECP256R1. `FullMath`, `FeeLogic`, `Base64`,
`ValidationData`, `Vault` and `Paymaster` model the contracts and libraries that their headers name.

Words are natural numbers below R and every opcode is written with its reduction (`Words`). R is the one
value of a type that admits only 2^256; `Words.WordValue` writes it out where its digits matter. Reverts are
`None`, `Aborted` or a false result. Pure functions of the source are Dafny functions; its loops are methods
with invariants, its contracts with storage are classes, its byte buffers are arrays.

Curve and order are parameters (`Curves.ValidCurve`, `Ecdsa.ValidDomain`): a word-sized odd prime field, a
non-zero b, a base point on the curve and an odd prime order. `P256.ValidP256` shows by computation that
the constants of both programs meet everything in this list except primality.

The code and its comments differ in three places, and the model follows the code:
`shamirLinearCombination` is announced as t0 * Q + t1 * G and computes t0 * G + t1 * Q; the documentation of
`CustomFullMath.mulDiv` promises the quotient whenever it fits a word; the comment on `jAdd` cites doubling
formulas.

## Model

| member | source | states |
|---|---|---|
| P256.P256VerifiersAgree | contracts/enclave-smart-account/P256VERIFY.yul:555-605 | for all words, with p and n prime: Solidity returns true iff Yul returns 1; Yul aborts iff the input is malformed, and Solidity then returns false; under associativity both equal SEC 1 acceptance |
| P256.VerifiersAgree | contracts/enclave-smart-account/P256Verifier.sol:73-124 | the same agreement over every domain and every set of Montgomery constants that belongs to it |
| P256.SolidityConstants | contracts/enclave-smart-account/P256Verifier.sol:47-68 | the stored constants are p - 2 and n - 2, a is p - 3, and the base point satisfies the curve equation |
| P256.ReductionConstants | contracts/enclave-smart-account/P256VERIFY.yul:71-105 | n * n' and p * p' are -1 modulo R, and the R^2 constants are R * R reduced |
| P256.MontgomeryConstants | contracts/enclave-smart-account/P256VERIFY.yul:30-69 | the Yul constants 1, a, b and G are the Montgomery forms of the Solidity constants |
| P256.ValidP256 | contracts/enclave-smart-account/P256VERIFY.yul:16-105 | with p and n prime, P-256 and the Yul constants meet every hypothesis of the general theorems |
| SolidityVerifier.EcdsaVerify | contracts/enclave-smart-account/P256Verifier.sol:73-124 | the result is the acceptance predicate for every hash, r, s and key, malformed ones included; under associativity it is SEC 1 acceptance |
| SolidityVerifier.MulMulAdd | contracts/enclave-smart-account/P256Verifier.sol:157-218 | the affine x of u * G + v * Q (0 for infinity) for all word scalars, zero included; the trace is the run itself: one accumulator per bit from the highest active bit down, each fixed by the bits and the one before, the last one divided to give x; each stands for the ladder over the bits consumed |
| SolidityVerifier.RunAccumulates | contracts/enclave-smart-account/P256Verifier.sol:187-214 | every accumulator of a run represents the ladder over its prefix of bits; it and its double are on the curve in XYZZ form, except a first accumulator (0, 0, 1, 1) when G + Q is infinity |
| SolidityVerifier.RunUnique | contracts/enclave-smart-account/P256Verifier.sol:187-214 | scalars, key and top bit determine every accumulator of a run |
| SolidityVerifier.TopUnique | contracts/enclave-smart-account/P256Verifier.sol:174-182 | the highest active bit, and with it the length of the run, is determined by the scalars |
| SolidityVerifier.FirstBitpair | contracts/enclave-smart-account/P256Verifier.sol:174-182 | the search stops at the highest bit set in either scalar, with the bit pair there |
| SolidityVerifier.ValidPubkeyIff | contracts/enclave-smart-account/P256Verifier.sol:130-150 | the key check accepts exactly the finite curve points |
| SolidityVerifier.ScalarsMatch | contracts/enclave-smart-account/P256Verifier.sol:101-109 | nModInv and mulmod give value / s modulo the order |
| SolidityVerifier.BareStartVanishes | contracts/enclave-smart-account/P256Verifier.sol:187-198 | an accumulator loaded with (0, 0) at scale one becomes infinity at the next doubling |
| SolidityVerifier.FinalX | contracts/enclave-smart-account/P256Verifier.sol:216-217 | the last division returns the affine x, or 0 for infinity |
| XYZZ.DoubleRefines | contracts/enclave-smart-account/P256Verifier.sol:345-359 | doubling any representative of a point represents its double, points of order two and infinity included |
| XYZZ.DoubleAffineIsDouble | contracts/enclave-smart-account/P256Verifier.sol:366-378 | the affine doubling is the general one at scale one |
| XYZZ.DaddRefines | contracts/enclave-smart-account/P256Verifier.sol:292-338 | mixed addition represents the sum in every case: infinity on either side, chord, equal points, opposite points |
| XYZZ.SetAffCorrect | contracts/enclave-smart-account/P256Verifier.sol:385-405 | conversion recovers the affine point from every representative |
| XYZZ.AffAddCorrect | contracts/enclave-smart-account/P256Verifier.sol:238-256 | affine addition through XYZZ is the group rule, (0, 0) being infinity |
| XYZZ.RepresentsOnCurve | contracts/enclave-smart-account/P256Verifier.sol:262-284 | every representative of a curve point satisfies zz^3 = zzz^2 and the weighted curve equation |
| FieldArith.ModInvCorrect | contracts/enclave-smart-account/P256Verifier.sol:421-451 | u^(f-2) modulo a prime f above 2 is the inverse of u, and 0 for multiples of f |
| NumberTheory.Fermat | contracts/enclave-smart-account/P256Verifier.sol:434-440 | a^(p-1) is 1 modulo a prime p for every a that p does not divide |
| YulVerifier.Verify | contracts/enclave-smart-account/P256VERIFY.yul:555-605 | aborts exactly on malformed input and otherwise returns the acceptance bit; under associativity it is SEC 1 acceptance |
| YulVerifier.ShamirLinearCombination | contracts/enclave-smart-account/P256VERIFY.yul:486-522 | the result represents t0 * G + t1 * Q |
| YulVerifier.FindMostSignificantBitIndex | contracts/enclave-smart-account/P256VERIFY.yul:532-539 | the highest bit set in either scalar and the bit pair there, although the index wraps below zero |
| YulVerifier.CompareBitsSpec | contracts/enclave-smart-account/P256VERIFY.yul:550-552 | the two bits as a number |
| YulVerifier.MontgomeryModularInverse | contracts/enclave-smart-account/P256VERIFY.yul:315-317 | the inverse of a Montgomery form is the Montgomery form of the inverse |
| YulVerifier.ComputeScalars | contracts/enclave-smart-account/P256VERIFY.yul:581-589 | the scalars equal those of the reference, out of Montgomery form |
| YulVerifier.AffineX | contracts/enclave-smart-account/P256VERIFY.yul:598-600 | the affine x of a finite accumulator |
| Projective.DoubleRefines | contracts/enclave-smart-account/P256VERIFY.yul:403-419 | doubling on Montgomery forms represents the double, for every representative |
| Projective.AddRefines | contracts/enclave-smart-account/P256VERIFY.yul:434-475 | addition on Montgomery forms represents the sum in every case |
| Projective.FromAffineRepresents | contracts/enclave-smart-account/P256VERIFY.yul:377-381 | lifting to projective coordinates keeps the point |
| Projective.OnCurveIff | contracts/enclave-smart-account/P256VERIFY.yul:362-366 | the Montgomery curve test decides the curve equation of the plain coordinates |
| Montgomery.RedcCorrect | contracts/enclave-smart-account/P256VERIFY.yul:238-250 | for every double word below n * R the result is below n and times R congruent to the input, carries included |
| Montgomery.IntoCorrect | contracts/enclave-smart-account/P256VERIFY.yul:259-263 | any word becomes the form of its residue |
| Montgomery.OutCorrect | contracts/enclave-smart-account/P256VERIFY.yul:271-275 | the form gives its residue back |
| Montgomery.RoundTrip | contracts/enclave-smart-account/P256VERIFY.yul:259-275 | into and out of Montgomery form is reduction modulo n, hence the identity below n |
| Montgomery.MulCorrect | contracts/enclave-smart-account/P256VERIFY.yul:302-306 | the product of forms is the form of the product |
| Montgomery.MulMirrors | contracts/enclave-smart-account/P256VERIFY.yul:302-306 | multiplying in Montgomery form and leaving it is multiplication modulo n, for all words |
| Montgomery.AddCorrect | contracts/enclave-smart-account/P256VERIFY.yul:282-284 | the sum of forms is the form of the sum |
| Montgomery.SubCorrect | contracts/enclave-smart-account/P256VERIFY.yul:291-293 | the difference of forms is the form of the difference |
| Montgomery.FormZero | contracts/enclave-smart-account/P256VERIFY.yul:389-391 | a form is zero exactly when its residue is, so the infinity test on z is sound |
| BinaryEuclid.BinaryExtendedEuclid | contracts/enclave-smart-account/P256VERIFY.yul:142-211 | for every odd modulus and coprime base: the loop ends, and the result is reduced and times the base congruent to r2 |
| BinaryEuclid.HalveModSpec | contracts/enclave-smart-account/P256VERIFY.yul:157-168 | halving modulo an odd word is exact even when b + modulus leaves the word |
| Curves.AddCommutes | contracts/enclave-smart-account/P256Verifier.sol:238-256 | the group rule commutes on all points |
| Curves.ChordClosed | contracts/enclave-smart-account/P256Verifier.sol:292-338 | the chord construction stays on the curve |
| Curves.TangentClosed | contracts/enclave-smart-account/P256Verifier.sol:345-359 | the tangent construction stays on the curve |
| Ladders.LadderIsLinear | contracts/enclave-smart-account/P256Verifier.sol:152-218 | the interleaved ladder is u * G + v * Q for all scalars, under associativity |
| Ecdsa.LadderAcceptsIff | contracts/enclave-smart-account/P256Verifier.sol:73-124 | acceptance through the ladder is acceptance through u * G + v * Q, under associativity |
| Ecdsa.SecondScalarNonZero | contracts/enclave-smart-account/P256VERIFY.yul:581-592 | a well-formed signature never gives the bit search two zero scalars |
| Jacobian.DoubleRefines | contracts/enclave-smart-account/SECP256R1.sol:331-366 | Jacobian doubling represents the double, for every representative |
| Jacobian.AddRefinesChordOnly | contracts/enclave-smart-account/SECP256R1.sol:246-327 | what jAdd represents on every pair: the sum, but infinity for two equal finite points |
| Jacobian.AddRefinesIff | contracts/enclave-smart-account/SECP256R1.sol:246-327 | jAdd represents the sum exactly when the points differ, one is infinity, or the double is infinity |
| Jacobian.AffineCorrect | contracts/enclave-smart-account/SECP256R1.sol:126-140 | the affine coordinates come back, (0, 0) for infinity |
| Window.PreComputeJacobianPoints | contracts/enclave-smart-account/SECP256R1.sol:187-218 | entry 4i + j of the new table is the sum of the i-th multiple of G and the j-th of the key, as the formulas compute them |
| Window.ColumnRepresents | contracts/enclave-smart-account/SECP256R1.sol:200-216 | the multiples up to 3 of either base are always right |
| Window.CellRepresents | contracts/enclave-smart-account/SECP256R1.sol:200-216 | what every entry stands for, whatever the key |
| Window.CellRepresentsIff | contracts/enclave-smart-account/SECP256R1.sol:200-216 | an entry is i * G + j * Q exactly when its two multiples are addable |
| Window.TableRightIff | contracts/enclave-smart-account/SECP256R1.sol:187-218 | the whole table is right exactly for keys none of whose first three multiples meets one of G |
| Window.BaseKeyBreaksTable | contracts/enclave-smart-account/SECP256R1.sol:187-218 | for the key G the entry for 2G stands for infinity |
| Window.ShamirMultJacobian | contracts/enclave-smart-account/SECP256R1.sol:85-120 | on the table of any key and for all word scalars the result is the coordinates of the exactly described accumulator; for safe keys and runs these are u1 * G + u2 * Q |
| Window.RunRightIff | contracts/enclave-smart-account/SECP256R1.sol:85-120 | for a safe key, every accumulator of a run is right exactly when every addition of the run is one that jAdd can do |
| Window.WindowIsLinear | contracts/enclave-smart-account/SECP256R1.sol:78-120 | two doublings and one table addition per digit compute u * G + v * Q, under associativity |
| Window.SafeRunIsLinear | contracts/enclave-smart-account/SECP256R1.sol:85-120 | the accumulator of a safe run with a safe key ends at u1 * G + u2 * Q |
| Window.BaseKeyBreaksRun | contracts/enclave-smart-account/SECP256R1.sol:85-120 | with the key G and both scalars 1 the loop ends at infinity, not at 2G |
| P256.P256BaseKeyFails | contracts/enclave-smart-account/SECP256R1.sol:85-218 | both failures on P-256 itself: for the key G the table is not right, and the loop with both scalars 1 ends at infinity although 2G is finite |
| JacobianVerifier.Verify | contracts/enclave-smart-account/SECP256R1.sol:42-54 | false for r or s of at least n; for every key on the curve the decision is r, s < n and r equal to the x of the exactly described accumulator |
| JacobianVerifier.VerifyWithPrecompute | contracts/enclave-smart-account/SECP256R1.sol:56-76 | the same on the table of a key |
| JacobianVerifier.AgreesIff | contracts/enclave-smart-account/SECP256R1.sol:42-76 | on safe runs with safe keys the decision equals SEC 1 acceptance if and only if it is not the case that r, s < n and either r = 0 with an x taken as 0, or r, s > 0 with an x of at least n congruent to r |
| JacobianVerifier.AgreesInRange | contracts/enclave-smart-account/SECP256R1.sol:42-76 | for r, s in the range of SEC 1 and r at least p - n the decision equals SEC 1 acceptance on every safe run with a safe key |
| JacobianVerifier.ZeroInverse | contracts/enclave-smart-account/SECP256R1.sol:56-76 | for s = 0, which SEC 1 rejects, the decision is r = 0 for every hash and every key on the curve |
| JacobianVerifier.CodeScalarIs | contracts/enclave-smart-account/SECP256R1.sol:66-69 | for s in range the two scalars are those of SEC 1 |
| Window.DigitsSpec | contracts/enclave-smart-account/SECP256R1.sol:100-102 | the masks and shifts read 4 times the top digit of u1 plus the top digit of u2 |
| FullMath.MulDiv | P256SmartAccountFactory_Flattened.sol:1782-1861 | floor(x * y / denominator) on all words, and a revert exactly on zero division and on a quotient that does not fit |
| FullMath.HighByCrtCorrect | P256SmartAccountFactory_Flattened.sol:1784-1793 | the product modulo R and modulo R - 1 give the high word exactly |
| FullMath.LargestPowerOfTwoSpec | P256SmartAccountFactory_Flattened.sol:1821-1825 | d & (~d + 1) is the largest power of two that divides d |
| FullMath.ShiftDown | P256SmartAccountFactory_Flattened.sol:1826-1838 | dividing by the power of two and shifting in the high bits gives the low word of the exact shift |
| FullMath.NewtonStep | P256SmartAccountFactory_Flattened.sol:1845-1852 | one step doubles the number of correct bits of the inverse |
| FullMath.InverseByNewtonCorrect | P256SmartAccountFactory_Flattened.sol:1840-1852 | the seed and six steps invert every odd word modulo 2^256 |
| FullMath.CheckedMulDiv | contracts/enclave-smart-account/paymaster/CustomFullMath.sol:14-106 | in checked arithmetic: returns the quotient exactly when the product fits a word, or the denominator is a power of two above the high word |
| FullMath.CheckedMulDivRoundingUp | contracts/enclave-smart-account/paymaster/CustomFullMath.sol:113-123 | the ceiling, exactly where mulDiv returns and the ceiling fits |
| FullMath.CeilingLeast | contracts/enclave-smart-account/paymaster/CustomFullMath.sol:113-123 | the ceiling is the least c with a * b <= c * denominator |
| FullMath.CheckedMeetsDocumentation | contracts/enclave-smart-account/paymaster/CustomFullMath.sol:8-106 | the checked code does what its documentation says if and only if the product fits a word, the quotient does not fit, or the denominator is a power of two |
| FullMath.CheckedRevertsOnThirds | contracts/enclave-smart-account/paymaster/CustomFullMath.sol:14-106 | 2^255 * 3 / 3 fits a word and the checked code reverts on it |
| FeeLogic.FindOptimalPool | contracts/enclave-smart-account/paymaster/EnclaveFeeLogicUniswap.sol:60-81 | the least fee among existing pools of maximal liquidity, or 0 when no existing pool has any |
| FeeLogic.OptimalUnique | contracts/enclave-smart-account/paymaster/EnclaveFeeLogicUniswap.sol:60-81 | the criterion gives the same fee under any two configurations with the same set of tiers, whatever their order and repetitions |
| FeeLogic.GetAmountIn | contracts/enclave-smart-account/paymaster/EnclaveFeeLogicUniswap.sol:83-104 | the amount at the optimal pool or a revert, in checked arithmetic; a returned amount meets the plain-integer bounds |
| FeeLogic.CalculateFee | contracts/enclave-smart-account/paymaster/EnclaveFeeLogicUniswap.sol:49-58 | the fee with every revert; a returned fee is gasUsed * gasPrice for WETH and meets the plain-integer bounds for other tokens |
| FeeLogic.AmountValue | contracts/enclave-smart-account/paymaster/EnclaveFeeLogicUniswap.sol:83-104 | a returned amount times 2^96 * 10^18 * markupDenominator is amountOut * price * 10^decimals * markup up to the stated roundings, with a price bounded the same way from sqrtPriceX96, liquidity and the fee |
| FeeLogic.FeeValue | contracts/enclave-smart-account/paymaster/EnclaveFeeLogicUniswap.sol:49-58 | for WETH exactly gasUsed * gasPrice, reverting exactly when that does not fit; otherwise the amount for it times markup / 100, up to the roundings |
| FeeLogic.DecimalPowers | contracts/enclave-smart-account/paymaster/EnclaveFeeLogicUniswap.sol:100-100 | the powers of ten, and that 18 of them give the constant |
| FeeLogic.FeeMonotone | contracts/enclave-smart-account/paymaster/EnclaveFeeLogicUniswap.sol:49-104 | more gas never costs less, and a fee that can be computed can be computed for less gas, although each quotient reverts on an irregular set |
| FeeLogic.QuotientMonotone | contracts/enclave-smart-account/paymaster/CustomFullMath.sol:14-106 | the checked quotient and the set on which it returns are monotone |
| Base64.Base64Encode | P256SmartAccountFactory_Flattened.sol:4165-4245 | the buffer filled in place is the encoding of section 4 of RFC 4648, padding included |
| Base64.GlyphTable | P256SmartAccountFactory_Flattened.sol:4160-4160 | the lookup is the written-out alphabet of section 4 of RFC 4648, and after the replacement that of section 5 |
| Base64.EncodeShape | P256SmartAccountFactory_Flattened.sol:4165-4245 | 4 * ceil(n/3) characters: standard ones, then exactly the padding |
| Base64.RoundTrip | P256SmartAccountFactory_Flattened.sol:4165-4245 | a decoder with its own table undoes the padded encoding on all byte strings |
| Base64.Base64UrlEncode | contracts/enclave-smart-account/utils/Base64URL.sol:7-30 | the result is the encoding of section 5 of RFC 4648 without padding |
| Base64.TrailingEquals | contracts/enclave-smart-account/utils/Base64URL.sol:11-14 | the two tests on the last characters count the padding exactly |
| Base64.UrlAlphabet | contracts/enclave-smart-account/utils/Base64URL.sol:19-27 | only URL-safe characters, and ceil(4n/3) of them |
| Base64.UrlRoundTrip | contracts/enclave-smart-account/utils/Base64URL.sol:7-30 | decoding undoes encoding on all byte strings |
| Base64.UrlInjective | contracts/enclave-smart-account/utils/Base64URL.sol:7-30 | different byte strings have different encodings |
| Vault.AlwaysSolvent | contracts/enclave-smart-balance/v0/EnclaveTokenVaultV0.sol:14-72 | in every run from deployment the vault holds at least the sum of the recorded deposits of each token, and a manager remains |
| Vault.StepSolvent | contracts/enclave-smart-balance/v0/EnclaveTokenVaultV0.sol:24-72 | every call and every foreign transfer keeps that |
| Vault.WithdrawalsAreCovered | contracts/enclave-smart-balance/v0/EnclaveTokenVaultV0.sol:45-52 | in a solvent state every withdrawal of a positive amount up to the recorded deposit succeeds |
| Vault.DepositsAccounted | contracts/enclave-smart-balance/v0/EnclaveTokenVaultV0.sol:38-72 | in every run a recorded deposit is the sum deposited less the sums withdrawn and claimed |
| Vault.WithdrawPays | contracts/enclave-smart-balance/v0/EnclaveTokenVaultV0.sol:45-52 | in a solvent state a withdrawal up to the recorded deposit raises the depositor's token balance, lowers the vault's and the deposit by the amount, and changes no other balance, deposit or manager; any other withdrawal changes nothing |
| Vault.ClaimPays | contracts/enclave-smart-balance/v0/EnclaveTokenVaultV0.sol:54-72 | the same for a manager's claim: the manager is paid, the owner named by the proof is debited; a claim by anyone else changes nothing |
| Vault.DepositTakes | contracts/enclave-smart-balance/v0/EnclaveTokenVaultV0.sol:38-43 | an approved and covered deposit moves the amount from the depositor to the vault and records it for the depositor; any other changes nothing |
| Vault.StepSurplus | contracts/enclave-smart-balance/v0/EnclaveTokenVaultV0.sol:24-72 | no call changes what the vault holds beyond its deposits, for any token; only a foreign transfer to the vault raises it, by its amount |
| Vault.HoldingsAccounted | contracts/enclave-smart-balance/v0/EnclaveTokenVaultV0.sol:14-72 | in every run the vault's balance is exactly the sum of deposits plus its holdings at deployment plus the gifts since |
| Vault.TokensConserved | contracts/enclave-smart-balance/v0/EnclaveTokenVaultV0.sol:38-72 | in every run the sum of all balances of a token stays the same |
| Vault.ManagerCalls | contracts/enclave-smart-balance/v0/EnclaveTokenVaultV0.sol:24-36 | exactly who is a manager after each of the two manager calls |
| Vault.DebitsAuthorised | contracts/enclave-smart-balance/v0/EnclaveTokenVaultV0.sol:45-72 | at every step of every run a deposit falls only by its owner's withdrawal or by the claim of an account that is a manager at that step |
| Vault.ManagersAuthorised | contracts/enclave-smart-balance/v0/EnclaveTokenVaultV0.sol:14-36 | at every point of every run a manager other than the deployer is not address 0 and was added by an account that was then a manager |
| Vault.EnclaveTokenVault.constructor | contracts/enclave-smart-balance/v0/EnclaveTokenVaultV0.sol:14-16 | the deployer is the only manager and nothing is deposited |
| Vault.EnclaveTokenVault.AddVaultManager | contracts/enclave-smart-balance/v0/EnclaveTokenVaultV0.sol:24-29 | takes the step of the transition system, or changes nothing |
| Vault.EnclaveTokenVault.RemoveVaultManager | contracts/enclave-smart-balance/v0/EnclaveTokenVaultV0.sol:31-36 | takes the step of the transition system, or changes nothing |
| Vault.EnclaveTokenVault.Deposit | contracts/enclave-smart-balance/v0/EnclaveTokenVaultV0.sol:38-43 | takes the step of the transition system on deposits and token balances, or changes nothing |
| Vault.EnclaveTokenVault.Withdraw | contracts/enclave-smart-balance/v0/EnclaveTokenVaultV0.sol:45-52 | takes the step of the transition system on deposits and token balances, or changes nothing |
| Vault.EnclaveTokenVault.Claim | contracts/enclave-smart-balance/v0/EnclaveTokenVaultV0.sol:54-72 | takes the step of the transition system on deposits and token balances, or changes nothing |
| ValidationData.PackParse | P256SmartAccountFactory_Flattened.sol:29-73 | parsing undoes packing, with 0 read as no upper limit |
| ValidationData.PackWindowParse | P256SmartAccountFactory_Flattened.sol:29-63 | the same for a full window with an aggregator |
| ValidationData.IntersectExact | P256SmartAccountFactory_Flattened.sol:40-55 | the intersection allows exactly the timestamps that both sides allow, and is free of an aggregator exactly when both are |
| ValidationData.IntersectPacked | P256SmartAccountFactory_Flattened.sol:40-55 | field by field, for all well-sized windows: the first non-zero aggregator, the later start and the earlier end, also when no timestamp is left |
| ValidationData.PackIsSum | P256SmartAccountFactory_Flattened.sol:61-63 | the packed word is aggregator + validUntil * 2^160 + validAfter * 2^208 |
| Paymaster.AcceptedAtMostOnce | contracts/enclave-smart-account/EnclaveVerifyingPaymaster.sol:66-113 | over every sequence of transactions, each authorisation is committed as accepted at most once |
| Paymaster.NeverAcceptedAgain | contracts/enclave-smart-account/EnclaveVerifyingPaymaster.sol:66-113 | after any run no validation produces an authorisation that was already committed |
| Paymaster.ValidationDecides | contracts/enclave-smart-account/EnclaveVerifyingPaymaster.sol:87-113 | for every encoding: validation returns exactly when the signature has 64 or 65 bytes, the nonce can be incremented and a signer is recovered from the written-out signed fields; it accepts exactly the trusted signer |
| Paymaster.OnlyEncodings | contracts/enclave-smart-account/EnclaveVerifyingPaymaster.sol:87-123 | whatever does not revert is such an encoding |
| Paymaster.HashBinds | contracts/enclave-smart-account/EnclaveVerifyingPaymaster.sol:35-78 | equal hashes have equal values in all signed fields, chain, paymaster, nonce and window |
| Paymaster.NonceAdvances | contracts/enclave-smart-account/EnclaveVerifyingPaymaster.sol:103-103 | the sender's nonce goes up by one and no other changes |
| Paymaster.RunEndorsed | contracts/enclave-smart-account/EnclaveVerifyingPaymaster.sol:66-113 | in every run every committed authorisation was signed by the trusted signer |
| Paymaster.CommittedIsRecorded | contracts/enclave-smart-account/EnclaveVerifyingPaymaster.sol:87-113 | after any run, one more committed operation is recorded exactly when it is accepted and uses up its nonce |
| Paymaster.VerdictWindow | contracts/enclave-smart-account/EnclaveVerifyingPaymaster.sol:87-113 | the entry point, intersecting with the account's data, allows exactly the signed window, and sees success exactly when the trusted signer is recovered from the signed fields |
| Paymaster.PaymasterDataRoundTrip | contracts/enclave-smart-account/EnclaveVerifyingPaymaster.sol:115-123 | parsing recovers the window and the signature from every encoding |
| Paymaster.ParseIff | contracts/enclave-smart-account/EnclaveVerifyingPaymaster.sol:115-123 | data of the layout parses exactly when both words are 48-bit numbers |
| Paymaster.ParsedIsEncoding | contracts/enclave-smart-account/EnclaveVerifyingPaymaster.sol:115-123 | whatever parses is the encoding of what was parsed |
| Paymaster.EnclaveVerifyingPaymaster.constructor | contracts/enclave-smart-account/EnclaveVerifyingPaymaster.sol:29-31 | no nonce is used |
| Paymaster.EnclaveVerifyingPaymaster.ValidatePaymasterUserOp | contracts/enclave-smart-account/EnclaveVerifyingPaymaster.sol:87-113 | a validation that does not revert uses up the sender's nonce, accepted or not; one that reverts changes nothing |

## Left out

- Primality of the P-256 field size and order: `IsPrime(P)` and `IsPrime(N)` are hypotheses of the P-256 theorems.
- Associativity of the curve's group rule: `Associative(c)` is a hypothesis wherever a ladder is equated with u * G + v * Q; the agreement of the verifiers, the refinements and the ladders do not use it.
- Window.ShamirMultJacobian: equality with u1 * G + u2 * Q goes one way, because two wrong additions of one run may cancel; for single additions, for table entries, for tables and for all accumulators of a run the conditions are exact.
- YulVerifier.FindMostSignificantBitIndex: asks for a non-zero scalar, because the loop of the source does not end on two zeros; its caller never passes them.
- SolidityVerifier.EcdsaVerify: the modular exponentiation precompile is its mathematical function and always answers.
- FeeLogic.GetAmountIn: the value is bounded up to the roundings of its divisions; the exact floor of each division and the exact set of reverts are stated step by step only.
- The fallback functions of both verifiers: reading the five words from call data, the length test and the returned encoding.
- `burnGas`, modelled as the outcome `Aborted` without its gas accounting.
- JacobianVerifier.Verify: promises only the range tests for a key off the curve, because the code does not test the key and the formulas then compute in no group.
- Keccak and ECDSA recovery in the paymaster: hashes are injective constructors and recovery is a parameter.
- The guard against reentrant calls and tokens that take a fee on transfer: vault calls are atomic and transfers move the exact amount.
- The decoding of the proof of a vault claim: the owner it names, or its failure, is a parameter of the call.
- The allowance that a deposit needs is a parameter of the call.
- The memory layout of the Base64 encoder, which writes into a zeroed word after the data and restores it; the model reads zero bytes after the end.
- Owner-only setters, deposits and stakes of the entry point, account factories, guardians, the token and solver paymasters, and the WebAuthn envelope around the signature: straight-line code that would add easy members.
