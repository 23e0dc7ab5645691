# Verified model of the OpenVM guest interpreter

This project models the RV32IM interpreter and the OpenVM precompiles of the
repository and proves what they promise: number theory on the values, the byte
and word loops that implement it, the sparse memory underneath, and the loop
that runs a guest program over all of it.

The layers, bottom up:

* **Number theory.** `Euclid` proves the Bezout identity of the repository's own
  extended gcd and gets Euclid's lemma from it; `PrimeField` adds Fermat's theorem
  and a bound on the roots of polynomials; `QuadraticResidues` adds Euler's
  criterion and the supplementary laws. `TonelliShanks`, `SquareRoots` and
  `CurveRoots` prove the two separate square-root loops and the two searches for a
  non-residue, and `RootChoice` which of the two roots comes back. `Modular` and `Curve` are the field, Fp2 and curve operations.
* **Pairing witnesses.** `Groups` keeps the target group abstract: a datatype of
  operations with the commutative-group laws as a hypothesis. `Bn254` and `Bls12`
  prove the residue witnesses from the relations between exponents, and
  `PairingConstants` checks the relations on the literal constants.
* **Words and permutations.** `Int256` and `Int256Shifts` prove the byte loops
  against integers modulo 2^256; `Keccak` proves the in-place permutation against
  the step mappings of FIPS 202 and gives its inverse.
* **The machine.** `FlatMemory` is a total map from 32-bit addresses to bytes;
  `Memory` is the paged memory object that refines it. `HintIo` holds the host
  streams. `Instructions`, `Precompiles` and `Machine` say as functions what one
  step and a whole run do; `Processor`, `Handlers` and `Interpreter` are the
  objects that change state in place and refine those functions.
  `RunProperties` and `StreamProperties` are the theorems about runs;
  `BaseInstructions`, `InstructionProperties`, `HostInstructions` and
  `PairingProperties` those about whole fetched instructions.

A Rust panic is modelled as the error `Panic` (or as `None` of the operation that
panics), and the theorems say exactly when it happens. Errors keep their kind and
program counter; the text of `CustomOp` messages is dropped. `BigUint` is `nat`,
and `u32` arithmetic wraps explicitly.

Primality of the moduli is a hypothesis throughout, as is, for the rejection
sampling, that the generator's buffers contain an acceptable one, and that the
target groups of the two pairings are commutative, the first with a 27th root of
unity that generates its 27-torsion (`Precompiles.WellFormed`); without these the
searches of the source need not end. The bytes drawn by the generator, the SHA-256
compression, the target groups, the pairing loops on points and the serialisers are
parameters of `Precompiles.Env`.

## Where the code and its comments part

* The comment on `m_inv` in `crates/precompiles/src/bn254_hint.rs:87` calls it the
  inverse of m modulo p^12 - 1. The literal is the inverse only modulo
  (p^12 - 1)/r; `PairingConstants.Bn254Exponents` proves both halves. The witness
  theorem needs the smaller modulus only.
* `1u32 << (m - i - 1)` in `crates/precompiles/src/ecc.rs:153` is modelled as
  release builds compute it: the shift count wraps at 32 (a debug build panics
  instead). The function is then exact if and only if the 2-adicity of p - 1 is at most 33
  (`CurveRoots.ExactIffShiftFits`). `Proth.LostSquareExample` names an input: modulo the
  prime 206158430209 the square 31812552339 is refused. All configured curves have
  2-adicity 1.
* HintDecompress with root 0 and parity 1 writes p itself, which is congruent to the
  root and odd but not canonical (`Curve.DecompressedPointOnCurve` has the exact condition,
  `Curve.DecompressGivesModulus` an input). A point with y = 0 has order two; the four
  configured curve groups have odd order, a fact not proved here, so none of them has one.
* The first loop of `shl` (`crates/precompiles/src/int256.rs:116-120`) ranges over
  nothing; the model has the second loop only.
* BEQ256 is documented to branch by its offset; with offset 0 the dispatcher moves
  on to pc + 4 (`InstructionProperties.Beq256Target`).
* `README.md:78` and `README.md:202` of the repository disagree on whether hints
  replace or extend the stream. The code replaces it for the field hints and
  HintInput and appends for the pairing hint, and so does the model.

## Model

| member | source | states |
|---|---|---|
| Euclid.BezoutIdentity | crates/precompiles/src/modular.rs:59-73 | the extended Euclid recursion, with quotient and remainder truncated toward zero, returns x and y with a x + b y = g |
| Euclid.ExtendedGcdIsGcd | crates/precompiles/src/modular.rs:59-73 | g divides both arguments and every common divisor divides g |
| Euclid.ModInvCorrect | crates/precompiles/src/modular.rs:43-57 | for p > 1 an inverse is returned exactly when a and p are coprime; it lies in [0, p) and times a gives 1 modulo p |
| Euclid.ModInvUnique | crates/precompiles/src/ecc.rs:42-70 | any v in [0, p) with a v = 1 modulo p is the value returned |
| PrimeField.InvertibleUnlessZero | crates/precompiles/src/modular.rs:43-57 | modulo a prime the inverse fails exactly on the multiples of the prime |
| PrimeField.EuclidLemma | crates/precompiles/src/modular.rs:59-73 | a prime dividing a product divides a factor, from the Bezout identity of the repository's own routine |
| PrimeField.Fermat | crates/precompiles/src/modular.rs:110-158 | a^(p-1) = 1 modulo a prime p for a not divisible by p: what the exponents of the square-root code rest on |
| QuadraticResidues.EulerCriterion | crates/precompiles/src/ecc.rs:116-121 | for an odd prime, a non-zero x is a square exactly when x^((p-1)/2) = 1; both directions, by counting squares against the root bound |
| QuadraticResidues.NonResidueTest | crates/precompiles/src/modular.rs:91-103 | the test `z.modpow((p-1)/2) == p-1` holds exactly for the values without a square root |
| QuadraticResidues.MinusOneLaw | crates/precompiles/src/modular.rs:82-84 | p - 1 is a square modulo an odd prime exactly when p = 1 mod 4 |
| QuadraticResidues.TwoLaw | crates/precompiles/src/modular.rs:85-87 | the part of the second supplementary law the fast path uses: 2 has no root modulo a prime p = 5 mod 8 |
| QuadraticResidues.NonResidueExists | crates/precompiles/src/modular.rs:94-104 | every odd prime has a non-residue below it |
| QuadraticResidues.RootsUpToSign | crates/precompiles/src/ecc.rs:110-112 | two roots of the same value modulo a prime agree up to sign |
| TonelliShanks.OddPartSplits | crates/precompiles/src/modular.rs:122-127 | dividing out twos leaves n = q * 2^s with q odd |
| TonelliShanks.SquaringsToOneIsLeast | crates/precompiles/src/modular.rs:140-145 | the inner loop finds the least i below m with t^(2^i) = 1, or runs to m |
| TonelliShanks.RoundKeepsInvariant | crates/precompiles/src/modular.rs:149-156 | one round keeps r^2 = x t, c^(2^(m-1)) = -1 and t^(2^(m-1)) = 1, with the smaller m = i |
| TonelliShanks.InitialInvariant | crates/precompiles/src/modular.rs:128-132 | the values before the loop satisfy the invariant whenever x is a non-zero square and z a non-residue |
| SquareRoots.ModSqrtOpenvm | crates/precompiles/src/modular.rs:110-158 | the nested loops compute ModSqrt and end for every modulus of at least 2, prime or not |
| SquareRoots.SqrtLoopFindsRoot | crates/precompiles/src/modular.rs:133-157 | from the invariant the loop ends with a reduced root of x |
| SquareRoots.SqrtLoopRejects | crates/precompiles/src/modular.rs:146-148 | for a prime p = 1 mod 4 and x without root the loop leaves through `None` |
| RootChoice.ChosenRootUnique | crates/precompiles/src/modular.rs:107-110 | of two roots at most one is a square (p = 3 mod 4), or x^((q+1)/2) z^(q k) with k below 2^(s-1) (p = 1 mod 4): this fixes which root comes back |
| RootChoice.RoundTracks | crates/precompiles/src/modular.rs:149-156 | one round keeps c = z^(q 2^(s-m)) and r = x^((q+1)/2) z^(q k) with k below 2^(s-m) |
| SquareRoots.SqrtLoopChooses | crates/precompiles/src/modular.rs:133-157 | of the two roots the loop returns the one that ChosenRoot fixes |
| SquareRoots.FastPathExact | crates/precompiles/src/modular.rs:112-120 | for p = 3 mod 4 the power x^((p+1)/4) is accepted exactly when x is a square, and is the root that is a square itself |
| SquareRoots.ModSqrtExact | crates/precompiles/src/modular.rs:110-158 | for every odd prime and every x, reduced or not: Some exactly when x has a root, and then the reduced root that ChosenRoot fixes |
| SquareRoots.FindNonQrOpenvm | crates/precompiles/src/modular.rs:79-105 | the search over the drawn buffers returns what FindNonQr says: fast paths first, then the first accepted buffer |
| SquareRoots.FindNonQrIsNonResidue | crates/precompiles/src/modular.rs:79-105 | on all three paths the value returned lies in [2, p) and has no square root modulo the odd prime p |
| SquareRoots.FindNonQrValue | crates/precompiles/src/modular.rs:82-104 | which non-residue: p - 1, or 2, or two more than the first draw below p - 3 that is two less than a non-residue |
| SquareRoots.SomeBufferAccepted | crates/precompiles/src/modular.rs:94-104 | rejection sampling is not vacuous: some buffer of the drawn length is accepted |
| SquareRoots.NonResidueProduct | crates/precompiles/src/modular.rs:260-264 | the product of two non-residues is a residue, the reason behind the `expect` |
| SquareRoots.HintSqrtTotalAndExact | crates/precompiles/src/modular.rs:254-278 | for every odd prime and every x the `expect` is never reached, the flag is set exactly when x is a square, and s < p is a root of x, or of x times the non-residue: the one that ChosenRoot fixes |
| SquareRoots.SqrtHintBytesDecode | crates/precompiles/src/modular.rs:267-275 | the guest reads flag and whole root back from the wire bytes |
| CurveRoots.SearchNonResidue | crates/precompiles/src/ecc.rs:217-226 | the upward search from 2 terminates below p at the least non-residue |
| CurveRoots.LeastNonResidueIsLeast | crates/precompiles/src/ecc.rs:129-133 | the value found has no root and every smaller one from 2 up has |
| CurveRoots.TonelliShanksMethod | crates/precompiles/src/ecc.rs:112-159 | the nested loops compute TonelliShanksRoot on every odd prime, and end |
| CurveRoots.CurveRoundKeepsInvariant | crates/precompiles/src/ecc.rs:153-157 | one round keeps r^2 = n t, c^(2^(m-1)) = -1, t^(2^(m-1)) = 1 while the shifted exponent fits 32 bits |
| CurveRoots.CurveLoopSucceeds | crates/precompiles/src/ecc.rs:139-158 | from the invariant with m at most 33 the inner `None` is never taken |
| CurveRoots.TonelliShanksSound | crates/precompiles/src/ecc.rs:112-159 | whatever the 2-adicity, a returned value is a reduced root |
| CurveRoots.TonelliShanksComplete | crates/precompiles/src/ecc.rs:112-159 | a root is returned for every reduced square while the 2-adicity of p - 1 is at most 33 |
| CurveRoots.TonelliShanksRefuses | crates/precompiles/src/ecc.rs:116-121 | non-residues, and non-zero multiples of p, are refused |
| CurveRoots.TonelliShanksAgreesWithModSqrt | crates/precompiles/src/modular.rs:110-158 | the two Tonelli-Shanks loops agree on solvability and on the root up to sign |
| CurveRoots.CurveLoopIsSqrtLoop | crates/precompiles/src/ecc.rs:139-158 | from the same state, while the shift fits, this loop returns the very value that the loop of modular.rs does |
| CurveRoots.TonelliShanksChooses | crates/precompiles/src/ecc.rs:112-159 | of the two roots the one that ChosenRoot fixes for the least non-residue |
| CurveRoots.LostSquare | crates/precompiles/src/ecc.rs:153 | for a prime with 2-adicity 34 or more, an explicit square that is refused because the 32-bit shift wraps |
| CurveRoots.ExactIffShiftFits | crates/precompiles/src/ecc.rs:112-159 | `tonelli_shanks` is exact on all n < p if and only if the 2-adicity of p - 1 is at most 33 |
| Proth.ProthCriterion | crates/precompiles/src/ecc.rs:153 | an odd p below 4^n with b^(2^(n-1)) = -1 is prime: how a modulus with a long 2-part is shown to be one |
| Proth.LostSquareExample | crates/precompiles/src/ecc.rs:153 | the failing input by name: modulo the prime 206158430209 = 3 * 2^36 + 1 the value 31812552339 is a square, and `tonelli_shanks` refuses it |
| Modular.SubModExact | crates/precompiles/src/modular.rs:189-192 | MOD_SUB succeeds exactly while b <= a + p, and is then the difference modulo p |
| Modular.DivThenMul | crates/precompiles/src/modular.rs:197-206 | MOD_DIV succeeds exactly on b coprime to p, and its result times b is a |
| Modular.Fp2MulIsProduct | crates/precompiles/src/modular.rs:328-342 | Fp2 MUL is the product with X^2 = -1 for operands of any size; the `div_ceil` branch never underflows |
| Modular.Fp2SubExact | crates/precompiles/src/modular.rs:322-327 | Fp2 SUB succeeds exactly while both coordinates satisfy b <= a + p, and is then the difference |
| Modular.Fp2DivThenMul | crates/precompiles/src/modular.rs:343-374 | a quotient times its divisor gives the dividend, reduced |
| Modular.Fp2MulThenDiv | crates/precompiles/src/modular.rs:343-374 | a product divided by a factor gives the other factor, reduced |
| Modular.NormZero | crates/precompiles/src/modular.rs:344-351 | for a prime p = 3 mod 4 the norm vanishes only at zero, because -1 is no square |
| Modular.Fp2DivFailsOnlyOnZero | crates/precompiles/src/modular.rs:343-351 | for such p DIV reports a missing inverse exactly for the zero divisor |
| Modular.Fp2IsFieldIff | crates/precompiles/src/modular.rs:343-351 | over an odd prime every non-zero element divides if and only if p = 3 mod 4 |
| Curve.ModpSubIsDifference | crates/precompiles/src/ecc.rs:72-80 | `modp_sub` is the difference modulo p for operands of any size |
| Curve.AddNeIsChord | crates/precompiles/src/ecc.rs:82-92 | `add_ne` panics exactly for equal x modulo p; otherwise the result is the third point of the chord, reflected |
| Curve.DoubleIsTangent | crates/precompiles/src/ecc.rs:94-108 | `double` panics exactly when 2y = 0 modulo p; otherwise the result comes from the tangent slope |
| Curve.AddNeOnCurve | crates/precompiles/src/ecc.rs:82-92 | the sum of two curve points with different x is canonical and on the curve |
| Curve.DoubleOnCurve | crates/precompiles/src/ecc.rs:94-108 | doubling a curve point with 2y not 0 gives a canonical point on the curve |
| Curve.AddNeCommutes | crates/precompiles/src/ecc.rs:82-92 | `add_ne` is commutative, its panic included |
| Curve.AddNeThenSubtract | crates/precompiles/src/ecc.rs:82-92 | adding the negated second point to a sum gives the first point back |
| Curve.DoubleThenSubtract | crates/precompiles/src/ecc.rs:94-108 | adding the negated point to a double gives the point back |
| Curve.CurveRhsIsCubic | crates/precompiles/src/ecc.rs:199-202 | the reduced steps compute x^3 + a x + b modulo p |
| Curve.FitParityKeepsRoot | crates/precompiles/src/ecc.rs:209-214 | choosing between y and p - y gives the asked parity and a root; only the root 0 with parity 1 gives p itself |
| Curve.DecompressedPointOnCurve | crates/precompiles/src/ecc.rs:194-216 | a decompressed y has the asked parity and lies on the curve |
| Curve.DecompressGivesModulus | crates/precompiles/src/ecc.rs:209-214 | the non-canonical case is real: with b = 0 modulo p, x = 0 and parity 1 give p itself |
| Curve.DecompressFailsIffNonResidue | crates/precompiles/src/ecc.rs:194-216 | HintDecompress fails exactly when x^3 + a x + b has no square root |
| Bn254.CubeCoset | crates/precompiles/src/bn254_hint.rs:123-135 | exactly one of f, f w and f w^2 is a cube: has trivial (N/3)-th power |
| Bn254.SelectCube | crates/precompiles/src/bn254_hint.rs:124-135 | the selection returns the shifted f together with u in {1, w, w^2} |
| Bn254.CubeShiftUnique | crates/precompiles/src/bn254_hint.rs:124-135 | no other power of w would do |
| Bn254.TsLoop | crates/precompiles/src/bn254_hint.rs:150-157 | on an element of order dividing 9 the inner loop ends within two cubings, and counts none exactly for 1 |
| Bn254.CubeRoot | crates/precompiles/src/bn254_hint.rs:141-168 | the nested loops reach x with x^3 = c in at most 8 outer steps |
| Bn254.CubeHasRoot | crates/precompiles/src/bn254_hint.rs:141-168 | a cube has a root among the nine candidates the outer loop goes through |
| Bn254.WitnessPower | crates/precompiles/src/bn254_hint.rs:137-170 | x^lambda = f u times a power of f, from the inverses of r and m modulo N/r |
| Bn254.PairIsWitness | crates/precompiles/src/bn254_hint.rs:118-171 | the pair the search defines always exists: f u is a cube, c is the first cube root the loops come to, and it is a witness if and only if f^(r r_inv m m_inv - 1) = 1 |
| Bn254.PairOfOne | crates/precompiles/src/bn254_hint.rs:197-208 | for f = 1 the pair is (1, 1), as the source serves without points |
| Bn254.FinalExpHint | crates/precompiles/src/bn254_hint.rs:118-171 | the loops terminate with that pair: c^lambda = f u whenever f^(N/r) = 1, u in {1, w, w^2}; the equation holds if and only if f^(r r_inv m m_inv - 1) = 1 |
| PairingConstants.Bn254Exponents | crates/precompiles/src/bn254_hint.rs:72-90 | the literals satisfy the relations used, with N = p^12 - 1 and lambda = 6x+2+p-p^2+p^3, both inverses reduced; m_inv inverts m modulo N/r but not modulo N as its comment says |
| PairingConstants.Bn254Parameters | crates/precompiles/src/bn254_hint.rs:7-8 | field and group order are the polynomials of a Barreto-Naehrig curve in the x of the comment |
| Bls12.ShiftCancels | crates/precompiles/src/bls12_381_hint.rs:95-118 | 1 plus the shift exponent is a multiple of 27 poly, from the two inverses |
| Bls12.ShiftedHasOrderP | crates/precompiles/src/bls12_381_hint.rs:102-119 | the shift removes both the poly part and the 27 part: (f s)^P = 1 |
| Bls12.ShiftOrder | crates/precompiles/src/bls12_381_hint.rs:102-118 | the shift itself has order dividing 27 poly |
| Bls12.HintIsWitness | crates/precompiles/src/bls12_381_hint.rs:88-126 | whenever f^(27 P poly) = 1: neither `modinv` fails, c^lambda = f s, and c, f s and s have the orders of a witness |
| Bls12.WitnessUnique | crates/precompiles/src/bls12_381_hint.rs:88-126 | there is at most one witness for f, so that the pair is fixed |
| Bls12.HintShape | crates/precompiles/src/bls12_381_hint.rs:102-125 | the pair for any f: s takes away f^(27 P t), and f^(10 P poly) exactly when f^(27 P poly) = 1, and c = (f s)^l |
| Bls12.HintOfOne | crates/precompiles/src/bls12_381_hint.rs:150-157 | for f = 1 the pair is (1, 1), as the source serves without points |
| Bls12.HintWitnessIff | crates/precompiles/src/bls12_381_hint.rs:88-126 | for any f: neither `modinv` fails, and c^lambda = f s if and only if (f s)^(lambda l - 1) = 1, with l the inverse of lambda modulo P |
| PairingConstants.Bls12Relations | crates/precompiles/src/bls12_381_hint.rs:71-79 | the literals are coprime and inverse as the theorem needs, 10 P poly = 1 modulo 27 included |
| PairingConstants.Bls12Parameters | crates/precompiles/src/bls12_381_hint.rs:71-79 | the literals are fixed by the curve: lambda = p + u, poly = (u+1)/3 and 27 P poly r = p^12 - 1 |
| Keccak.ThetaInPlace | crates/precompiles/src/hashes.rs:108-121 | the parity loops are the theta mapping of section 3.2.1 of FIPS 202 |
| Keccak.WalkIsRhoPi | crates/precompiles/src/hashes.rs:122-129 | each step of the walk moves the lane pi asks for to its place, rotated by the offset rho asks for |
| Keccak.PilInjective | crates/precompiles/src/hashes.rs:104-106 | no two steps of the walk write the same lane, so that its 24 steps write each lane but the first once |
| Keccak.RhoPiInPlace | crates/precompiles/src/hashes.rs:122-129 | the in-place walk is rho followed by pi |
| Keccak.ChiInPlace | crates/precompiles/src/hashes.rs:130-139 | the row buffer loop is chi |
| Keccak.KeccakF1600 | crates/precompiles/src/hashes.rs:92-143 | the loops take the state through KeccakF, which is the chain of 24 rounds |
| Keccak.KeccakFIs24Rounds | crates/precompiles/src/hashes.rs:107-142 | there are 25 states from the old one to the result, each the five step mappings of the one before, with round constants 0 to 23 |
| Keccak.OffsetsFromWalk | crates/precompiles/src/hashes.rs:101-103 | the rotation of the lane met at step t is (t+1)(t+2)/2 modulo 64, as along the standard's walk |
| Keccak.WalkIsHeld | crates/precompiles/src/hashes.rs:122-129 | the tabulated walk holds the lanes of the standard's walk, in its order |
| Keccak.WalkVisitsOnce | crates/precompiles/src/hashes.rs:101-106 | the standard's walk meets no lane twice, so that the offsets along it fix the whole table |
| Keccak.RoundConstantsAreStandard | crates/precompiles/src/hashes.rs:93-100 | the round constants are those the linear feedback register of section 3.2.5 of FIPS 202 generates |
| Keccak.InverseThetaWorks | crates/precompiles/src/hashes.rs:108-121 | theta has the explicit inverse built from column parities |
| Keccak.InverseRhoWorks | crates/precompiles/src/hashes.rs:122-129 | rotating every lane back by its offset undoes rho |
| Keccak.InversePiWorks | crates/precompiles/src/hashes.rs:122-129 | sending every lane back to where the walk took it from undoes pi |
| Keccak.InverseChiWorks | crates/precompiles/src/hashes.rs:130-139 | chi has an explicit inverse on each row |
| Keccak.InverseRoundsWork | crates/precompiles/src/hashes.rs:107-142 | the inverse rounds undo the rounds |
| Keccak.KeccakInjective | crates/precompiles/src/hashes.rs:92-143 | the permutation is injective on all states |
| Int256.Add | crates/precompiles/src/int256.rs:51-60 | the bytes out denote (a + b) modulo 2^256 |
| Int256.Sub | crates/precompiles/src/int256.rs:61-75 | the bytes out denote (a - b) modulo 2^256 |
| Int256.AddRow | crates/precompiles/src/int256.rs:180-182 | one row of the product is added to the columns, and no column exceeds (i + 1) 255^2 |
| Int256.CarryColumns | crates/precompiles/src/int256.rs:184-191 | carrying columns of at most 32 * 255^2 keeps the value modulo 2^256 with no u32 overflow |
| Int256.Mul | crates/precompiles/src/int256.rs:176-192 | schoolbook multiplication with deferred carries denotes a b modulo 2^256 |
| Int256Shifts.ShlMethod | crates/precompiles/src/int256.rs:104-130 | for every amount the result denotes a 2^k modulo 2^256; the first loop, over an empty range, contributes nothing |
| Int256Shifts.ShrLogical | crates/precompiles/src/int256.rs:132-151 | for every amount the result denotes floor(a / 2^k) |
| Int256Shifts.ShrArith | crates/precompiles/src/int256.rs:153-174 | for every amount the two's-complement value is divided by 2^k, rounding down |
| Int256Shifts.CmpUnsigned | crates/precompiles/src/int256.rs:194-202 | the downward scan orders words as their values |
| Int256Shifts.CmpSigned | crates/precompiles/src/int256.rs:203-211 | sign bits and scan order words as their two's-complement values |
| Bytes.LeRoundTrip | crates/precompiles/src/modular.rs:34-40 | a value that fits n bytes is read back from `to_bytes_le` and `resize` |
| Bytes.ToLeOfLe | crates/precompiles/src/modular.rs:29-32 | bytes read as a number are its n low digits |
| FlatMemory.WriteAt | crates/rv32im/src/memory.rs:98-102 | after a slice write of any length each address holds the last byte that reached it, or what it held |
| FlatMemory.WriteThenRead | crates/rv32im/src/memory.rs:97-109 | no address outside a written slice changed, and a slice no longer than the address space is read back |
| Memory.JoinedWord | crates/rv32im/src/memory.rs:67-71 | bytes joined with shifts and ors are the sum of their places |
| Memory.PagedMemory.PageMut | crates/rv32im/src/memory.rs:32-36 | allocating a page does not change what the memory holds |
| Memory.PagedMemory.ReadU8 | crates/rv32im/src/memory.rs:39-44 | reads the flat map, zero outside touched pages |
| Memory.PagedMemory.WriteU8 | crates/rv32im/src/memory.rs:46-49 | updates the flat map at the one address |
| Memory.PagedMemory.ReadU16 | crates/rv32im/src/memory.rs:52-56 | the two bytes upward, wrapping, as a little-endian value |
| Memory.PagedMemory.ReadU32 | crates/rv32im/src/memory.rs:58-72 | fast and slow path both give the four bytes upward of the flat map |
| Memory.PagedMemory.WriteU16 | crates/rv32im/src/memory.rs:74-77 | stores the two bytes upward in the flat map |
| Memory.PagedMemory.WriteU32 | crates/rv32im/src/memory.rs:79-95 | fast and slow path both store the four bytes upward in the flat map |
| Memory.PagedMemory.WriteSlice | crates/rv32im/src/memory.rs:98-102 | stores the slice upward, across pages and past the top |
| Memory.PagedMemory.ReadVec | crates/rv32im/src/memory.rs:105-109 | returns the bytes upward of the flat map |
| HintIo.IoState.NextInput | crates/precompiles/src/lib.rs:75-89 | pops one entry, discards what was left of earlier hints and queues the frame; with no entry nothing changes |
| HintIo.IoState.ReadHintBytes | crates/precompiles/src/lib.rs:91-97 | delivers the next n bytes, zeros once the stream is empty, and drops them |
| HintIo.IoState.WriteOutput | crates/precompiles/src/lib.rs:99-105 | the output after the write, zero-filled up to it |
| HintIo.IoState.ReplaceHints | crates/precompiles/src/modular.rs:162-167 | the hint stream is replaced, not appended to |
| HintIo.FrameLayout | crates/precompiles/src/lib.rs:72-89 | a frame is the length, the entry and fewer than four zeros up to a word boundary |
| HintIo.ReadsDeliverInOrder | crates/precompiles/src/lib.rs:91-97 | however the reads are cut, together they deliver the stream in order and then zeros |
| HintIo.InputIsDelivered | crates/precompiles/src/lib.rs:75-97 | after HintInput any reads see length, entry, then zeros, and nothing of earlier entries |
| HintIo.LastRevealWins | crates/precompiles/src/lib.rs:99-105 | after any sequence of writes the output is as long as the furthest, each byte is that of the last write over it, and zero in gaps |
| Decode.ImmIMeaning | crates/rv32im/src/decode.rs:32-34 | the sign-extended twelve-bit value |
| Decode.ImmSMeaning | crates/rv32im/src/decode.rs:38-42 | the two fields joined and sign-extended |
| Decode.ImmBMeaning | crates/rv32im/src/decode.rs:46-52 | the scattered bits joined into an even offset in [-4096, 4094] |
| Decode.ImmJMeaning | crates/rv32im/src/decode.rs:62-68 | the scattered bits joined into an even offset in [-2^20, 2^20 - 2] |
| Decode.FieldLayout | crates/rv32im/src/decode.rs:6-28 | the six fields make up the word, each in its place and within its width |
| Decode.ImmediateFields | crates/rv32im/src/decode.rs:32-58 | the twelve-bit and the upper immediate in terms of the fields |
| InstructionProperties.AssembledWord | crates/precompiles/src/lib.rs:137-164 | a word assembled from an operation and three registers is decoded to them |
| Instructions.UpperAndLowerHalf | crates/rv32im/src/cpu.rs:281-293 | MULH, MULHSU and MULHU with MUL hold the whole signed, mixed and unsigned 64-bit product |
| Instructions.DivisionLaw | crates/rv32im/src/cpu.rs:294-329 | dividend = divisor * quotient + remainder modulo 2^32 for every operand, zero divisor and overflow included |
| Instructions.StoreThenLoad | crates/rv32im/src/cpu.rs:195-231 | loads read back what stores of the same width wrote, zero- or sign-extended |
| Bits.DigitOfBitwise | crates/rv32im/src/cpu.rs:275-279 | or, and and exclusive or on every bit |
| BaseInstructions.AluMeaning | crates/rv32im/src/cpu.rs:263-336 | every entry of the register table means its operation: congruences, bits, quotients rounded down, and truncated division with its two special cases; other entries do not exist |
| BaseInstructions.ImmediateOperation | crates/rv32im/src/cpu.rs:233-257 | the immediate operations are the register operations on the immediate or the shift amount |
| BaseInstructions.AluInstruction | crates/rv32im/src/cpu.rs:263-340 | fetched register operation: rd becomes rs1 op rs2, pc moves on, nothing else changes; else illegal |
| BaseInstructions.ImmediateInstruction | crates/rv32im/src/cpu.rs:233-261 | fetched immediate operation, likewise |
| BaseInstructions.BranchInstruction | crates/rv32im/src/cpu.rs:170-193 | fetched branch: which comparison each makes and where it goes |
| BaseInstructions.LoadInstruction | crates/rv32im/src/cpu.rs:195-213 | fetched load: one, two or four bytes upward, signed or unsigned, into rd |
| BaseInstructions.StoreInstruction | crates/rv32im/src/cpu.rs:215-231 | fetched store: the low bytes of rs2 upward, and no other byte changes |
| BaseInstructions.JumpInstruction | crates/rv32im/src/cpu.rs:119-130 | fetched JAL and JALR: link and target, rs1 read before the link is written |
| BaseInstructions.UpperInstruction | crates/rv32im/src/cpu.rs:111-118 | fetched LUI and AUIPC |
| BaseInstructions.OtherInstruction | crates/rv32im/src/cpu.rs:136-162 | FENCE does nothing, ECALL and EBREAK are errors of their own, other words are illegal |
| Processor.Cpu.constructor | crates/rv32im/src/cpu.rs:53-68 | registers zero but sp, memory the segments copied in order over zeros |
| Processor.Cpu.LoadSegments | crates/rv32im/src/cpu.rs:55-59 | copying the segments is one flat write after the other |
| Processor.Cpu.WriteRegister | crates/rv32im/src/cpu.rs:80-84 | register 0 is never written |
| Processor.Cpu.ExecuteBranch | crates/rv32im/src/cpu.rs:170-193 | refines the branch group; an illegal funct3 leaves the state as it was |
| Processor.Cpu.ExecuteLoad | crates/rv32im/src/cpu.rs:195-213 | refines the load group over the flat map, with sign extension |
| Processor.Cpu.ExecuteStore | crates/rv32im/src/cpu.rs:215-231 | refines the store group over the flat map |
| Processor.Cpu.ExecuteOpImm | crates/rv32im/src/cpu.rs:233-261 | refines the immediate group |
| Processor.Cpu.ExecuteOp | crates/rv32im/src/cpu.rs:263-340 | refines the register group |
| Processor.Cpu.Execute | crates/rv32im/src/cpu.rs:106-150 | refines the base instructions; an illegal one leaves the state as it was |
| Handlers.Int256Compute | crates/precompiles/src/int256.rs:225-244 | the eleven operations return the encoded result of Int256Op, other numbers none |
| Handlers.HandleInt256 | crates/precompiles/src/int256.rs:219-247 | refines the specification of the whole instruction |
| Handlers.HandleBeq256 | crates/precompiles/src/int256.rs:251-263 | sets the program counter the specification gives |
| Handlers.DoKeccakf | crates/precompiles/src/hashes.rs:25-44 | lane loads, permutation and lane stores are one write of the permuted lanes |
| Handlers.DoXorin | crates/precompiles/src/hashes.rs:46-56 | the byte loop, seeing its own writes where the ranges overlap, is XorIn |
| Handlers.DoSha256Compress | crates/precompiles/src/hashes.rs:58-89 | word loads and stores around the compression function |
| Handlers.DoModOp | crates/precompiles/src/modular.rs:169-226 | refines the modular operations; an error leaves the state as it was |
| Handlers.ComputeModHint | crates/precompiles/src/modular.rs:247-276 | the hint bytes come from the search and the square-root methods |
| Handlers.HandleComplex | crates/precompiles/src/modular.rs:285-392 | refines the Fp2 operations |
| Handlers.ComputeSw | crates/precompiles/src/ecc.rs:179-233 | refines the curve operations, through the square-root and search methods |
| Handlers.HandleSw | crates/precompiles/src/ecc.rs:161-235 | refines the curve instructions on memory |
| Handlers.ComputePairingHint | crates/precompiles/src/bn254_hint.rs:175-239 | refines the hint of the pairing instruction: unequal counts fail, else the serialised witness of the points |
| Handlers.LoadPairingInput | crates/precompiles/src/bn254_hint.rs:186-223 | the descriptors and the points they name, at any address, wrapping |
| Handlers.ComputeWitness | crates/precompiles/src/bn254_hint.rs:197-239 | the serialised pair, computed by the loops of `final_exp_hint`, or (1, 1) without points |
| Interpreter.PrecompileHandler.HandleHint | crates/precompiles/src/lib.rs:209-238 | refines HINT_STOREW and HINT_BUFFER |
| Interpreter.PrecompileHandler.HandleReveal | crates/precompiles/src/lib.rs:239-247 | refines REVEAL |
| Interpreter.PrecompileHandler.HandlePhantom | crates/precompiles/src/lib.rs:248-271 | refines the phantoms; a failing HintInput changes nothing |
| Interpreter.PrecompileHandler.HandleModular | crates/precompiles/src/modular.rs:228-280 | refines the modular instructions with their hints |
| Interpreter.PrecompileHandler.HandlePairing | crates/precompiles/src/pairing.rs:30-58 | refines the pairing instruction: the serialised witness is appended to the hint stream |
| Interpreter.PrecompileHandler.HandleCustom0 | crates/precompiles/src/lib.rs:195-321 | refines the custom-0 table |
| Interpreter.PrecompileHandler.HandleCustom1 | crates/precompiles/src/lib.rs:323-356 | refines the custom-1 table |
| Interpreter.PrecompileHandler.Dispatch | crates/precompiles/src/lib.rs:167-191 | refines the dispatcher with its conditional advance |
| Interpreter.PrecompileHandler.StepOnce | crates/rv32im/src/cpu.rs:106-166 | the object-level step refines Step, and a failing step leaves processor, memory and streams as they were |
| Interpreter.PrecompileHandler.RunLoop | crates/rv32im/src/cpu.rs:87-102 | the loop terminates and ends with the result, state and step count of Run |
| RunProperties.StepKeepsSound | crates/rv32im/src/cpu.rs:106-166 | every step, custom ones included, keeps x0 zero and the program counter even, takes inputs from the front and never shrinks the output |
| RunProperties.RunKeepsSound | crates/rv32im/src/cpu.rs:87-102 | the same wherever a run stops, and the step count stays within the limit |
| RunProperties.StepNeverReportsLimit | crates/rv32im/src/cpu.rs:93-95 | only the loop itself reports the step limit |
| RunProperties.RunResumes | crates/rv32im/src/cpu.rs:87-102 | a run stopped at its limit and resumed with a larger one ends exactly as one run with the larger limit |
| StreamProperties.RunIsSteps | crates/rv32im/src/cpu.rs:87-102 | every run is as many completed steps as it counts, and ends exactly because the limit is reached or the next step fails or terminates, which changes nothing |
| StreamProperties.StepStreams | crates/precompiles/src/lib.rs:209-271 | one completed step of any kind: the output after it, and the stream after it unless it refills it |
| StreamProperties.ReadsOverRuns | crates/precompiles/src/lib.rs:209-238 | over any run that does not refill the stream, the bytes its HINT steps read are the stream in order, then zeros, and the rest is left |
| StreamProperties.InputOverRuns | crates/precompiles/src/lib.rs:209-271 | after a HintInput step, the HINT steps of any run until the next refill receive length, entry, then zeros |
| StreamProperties.OutputOverRuns | crates/precompiles/src/lib.rs:239-247 | over any run the output is what its REVEAL steps make of the output before |
| StreamProperties.OutputOfRun | crates/precompiles/src/lib.rs:99-105 | after any run the output is as long as the furthest reveal, the last reveal over a byte decides it, and gaps are zero |
| Precompiles.BytewiseValue | crates/precompiles/src/int256.rs:76-96 | byte by byte is bit by bit on the values, for or, and, and exclusive or |
| InstructionProperties.Int256OpMeaning | crates/precompiles/src/int256.rs:225-244 | each of the eleven operations on words means the integer operation on their values |
| InstructionProperties.Int256Instruction | crates/precompiles/src/int256.rs:219-247 | fetched INT256, any three pointers, overlapping or wrapping: the 32 bytes at [rd] denote the operation on the old values and nothing else changes |
| InstructionProperties.Beq256Target | crates/precompiles/src/lib.rs:181-187 | where BEQ256 goes; a taken branch with offset 0 goes to pc + 4 |
| InstructionProperties.ModularInstruction | crates/precompiles/src/modular.rs:169-226 | fetched ADD, SUB, MUL or DIV on unreduced operands: the exact failure condition, else the canonical result at [rd] and nothing else changed |
| InstructionProperties.IsEqInstruction | crates/precompiles/src/modular.rs:207-213 | fetched IsEq says in register rd whether the operands are congruent, and changes nothing else |
| InstructionProperties.NonResidueHintInstruction | crates/precompiles/src/modular.rs:247-253 | fetched HintNonQr replaces the hint stream by p - 1, by 2, or by the first draw without a root, as the residue of p says |
| InstructionProperties.SquareRootHintInstruction | crates/precompiles/src/modular.rs:254-278 | fetched HintSqrt never panics and leaves flag and the one root that ChosenRoot fixes in the hint stream, in place of earlier hints |
| InstructionProperties.ComplexInstruction | crates/precompiles/src/modular.rs:285-392 | fetched Fp2 ADD, SUB, MUL or DIV on unreduced operands: the exact failure condition, else the result at [rd] |
| InstructionProperties.ComplexIsEqInstruction | crates/precompiles/src/modular.rs:375-380 | fetched Fp2 IsEq says in register rd whether both coordinates are congruent |
| InstructionProperties.CurveInstruction | crates/precompiles/src/ecc.rs:179-190 | fetched ADD_NE or DOUBLE panics exactly without a slope; otherwise [rd] holds the canonical point of that chord or tangent for any operands, on the curve if they are |
| InstructionProperties.CurveNonResidueInstruction | crates/precompiles/src/ecc.rs:217-226 | fetched HintNonQr of a curve stores the least non-residue from 2 upward |
| InstructionProperties.DecompressInstruction | crates/precompiles/src/ecc.rs:194-216 | fetched HintDecompress fails exactly on non-residues, else n bytes at [rd] hold a y of the asked parity on the curve |
| InstructionProperties.KeccakfInstruction | crates/precompiles/src/hashes.rs:25-44 | fetched KECCAKF takes the 25 little-endian lanes at [rd] through the 24 rounds, and nothing else changes |
| InstructionProperties.XorInTwice | crates/precompiles/src/hashes.rs:46-56 | absorbing the same bytes twice restores the memory when source and destination are apart |
| InstructionProperties.HintInstruction | crates/precompiles/src/lib.rs:209-238 | fetched HINT_STOREW moves four bytes of the stream to [rd], HINT_BUFFER four times rs1 of any number, the last byte that reaches an address staying there, and the rest of the stream is left |
| InstructionProperties.InputReachesMemory | crates/precompiles/src/lib.rs:209-271 | HintInput then HINT_BUFFER, as a run of two steps: the whole queued entry stands in memory behind its length, zeros after it |
| HostInstructions.TerminateInstruction | crates/precompiles/src/lib.rs:202-208 | fetched TERMINATE ends the run with rs1 as the exit code and changes nothing |
| HostInstructions.RevealInstruction | crates/precompiles/src/lib.rs:239-247 | fetched REVEAL puts the four bytes of rs1 at rd plus the immediate, and keeps the rest of the output |
| HostInstructions.XorinInstruction | crates/precompiles/src/hashes.rs:46-56 | fetched XORIN, ranges apart: each byte at [rd] becomes its exclusive or with the byte at [rs1], as many as rs2 says |
| HostInstructions.Sha256Instruction | crates/precompiles/src/hashes.rs:58-89 | fetched SHA256: eight little-endian words at [rd] become the compression of those at [rs1] and the 64 bytes at [rs2] |
| HostInstructions.NoEffectInstruction | crates/precompiles/src/lib.rs:258-315 | the instructions that only move on |
| HostInstructions.UnknownInstruction | crates/precompiles/src/lib.rs:316-355 | operations and table entries that do not exist, and HintInput without input, fail |
| PairingProperties.PairingInputLayout | crates/precompiles/src/pairing.rs:6-10 | the widths of the points of both groups on both curves |
| PairingProperties.WitnessBytesServe | crates/precompiles/src/bn254_hint.rs:118-171 | the bytes are always those of a residue witness for the pairing loop's value: no search runs on and no `expect` fails |
| PairingProperties.PairingInstruction | crates/precompiles/src/pairing.rs:30-58 | fetched pairing instruction: fails exactly for unequal counts, else appends the bytes of c then u of a residue witness for the points that the two descriptors name, 64 and 128 or 96 and 192 bytes each |
| Config.ConfiguredModuli | crates/precompiles/src/config.rs:80-111 | every configured curve modulus is 3 mod 4 and fits its width, with reduced coefficients |
| Config.StandardModuli | crates/precompiles/src/config.rs:50-64 | the secp256k1 and P-256 moduli are those of SEC 2 |
| Config.ModulusOrder | crates/precompiles/src/config.rs:33-134 | which modulus and which pairing curve an index selects |
| Config.CurveOrder | crates/precompiles/src/config.rs:80-111 | which curve an index selects; each has its standard base point, which with a fixes b |
| Config.ConfiguredWidths | crates/precompiles/src/config.rs:33-76 | every configured modulus is odd and fits its operand width |
| Config.ConfiguredEnvironment | crates/precompiles/src/config.rs:33-129 | with prime moduli and a generator that finds non-residues, the configured tables meet the assumption of the machine theorems |
| Config.ConfiguredDecompressionExact | crates/precompiles/src/config.rs:80-111 | on the configured curves decompression succeeds exactly for the x coordinates of curve points |
| Config.ConfiguredFp2IsField | crates/precompiles/src/config.rs:116-129 | in both configured Fp2 every non-zero element divides |

## Left out

- ELF parsing, the command line and the `tools/` programs: input and output around external crates.
- The Miller loop, the Fq12 tower and the serialisation of its elements: parameters of the pairing theorems, which hold for any value f of the loop; that f^(N/r) = 1, or f^(27 P poly) = 1, is for the caller's points to give.
- SHA-256 compression: a function parameter of the same shape; only the loads and stores around it are modelled.
- The bytes `StdRng` produces: any list of buffers, so that the sampling loop is proved for whatever it draws, and its termination only where one is accepted.
- Primality of the configured literals: a hypothesis of the theorems that need it.
- Curve-group associativity: inverses and commutativity are proved, associativity is not.
- Width of the step counter (`u64`), of the hint and output buffers (`usize`) and of `t` in the BN254 cube-root loop (`i32`): unbounded here; the last is at most 2 by Bn254.TsLoop.
- Feature gates, tracing, the call counter and error-message text: no effect on the state.
- SHA-512 compression, MillerLoop opcodes and the other phantoms: not implemented by the source, which rejects or ignores them.
- Curve orders: that no configured curve has a point of order two is not proved.
- CurveRoots.TonelliShanksComplete: for reduced n, as every caller passes; a non-zero multiple of p is refused by the source (CurveRoots.TonelliShanksRefuses).
