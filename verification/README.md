# ML-KEM, from machine words to shared secrets

A Dafny model of mlkem-selkie, an implementation of ML-KEM (FIPS 203), with proofs
that its lazily reduced, vectorized arithmetic and its key encapsulation compute what
the standard defines. `dafny verify dfyconfig.toml` checks everything.

## How it is layered

- **Words and residues.** `Words` has the sixteen- and thirty-two-bit words with every
  wrap-around written out, `Zq` the field Z/q, `Field` the reductions and compressions
  of `src/algebraic/field.rs`. "Nothing wraps" is proved, never assumed.
- **The transform as algebra.** `Polynomials` multiplies modulo X^n - w and shows that
  product to be the schoolbook convolution; `Transform` is the number-theoretic
  transform as a tree of remainders, its inverse, and the ring homomorphism;
  `ZetaTables` settles the 128-entry tables; `TqAlgebra` is the algebra of transformed
  vectors and matrices.
- **The transform on words.** `NttSpec` is the exact sequence of words the program
  computes, `ScalarNtt` the in-place loops that compute it, `NttCorrect` its residues
  and bounds, `BaseMul` base multiplication and the accumulated dot product,
  `RingProduct` the whole pipeline: the product modulo X^256 + 1 and q.
- **Vector backends.** `Lanes` has one lane of every instruction used and the lane forms
  of the field operations, `Registers` stores and store loops; `SimdNtt` and
  `SimdTransforms` the merged register trips and the vector inverses; `AsmPipelines` the
  two software-pipelined stages, register for register; `Avx2BaseMul` the permuted
  accumulator and `NeonBaseMul` the widening one; `SimdKernels` the vector loops of split
  storage, multiplication, compression and canonical form with their register
  permutations; `SimdPacking` and `SimdUnpacking` the gather packers; `VectorReject` the
  table-driven rejection kernel. All are shown to give the scalar representatives
  themselves, on every input. `Kernels` is the dispatch, one contract per kernel.
- **Samplers and codecs.** `Bits` and `Packing` (the 64-bit-word packer), `Cbd`,
  `NoiseSampler`, `Rejection`, `MatrixSampling`, `Encoding`, `Blocks`.
- **The scheme.** `PkeSpec` is K-PKE over Z/q with its noise equation, `PkeWords` the
  same on words, `Pke` the program's methods, `Keys` serialization, `Kem` encapsulation,
  decapsulation and the two key parsers.

Every method of the scheme takes the backend it runs on and keeps one contract on all of
them: portable, AVX2, and NEON with either head of its transform.

What a key, a ciphertext or a shared secret is, is stated down to the hash inputs and
byte positions: which half of which digest is used, which stream each polynomial is
sampled from, and where each part lies on the wire.

The hash functions are an arbitrary `Primitives` value: any four total functions, an
extendable one giving an endless byte stream. Every theorem holds for all of them.
Rejection sampling terminates only on streams with enough accepted candidates, so
methods that expand the matrix require exactly that of the streams they read, including
the lanes that K = 3 over-samples. Parameters are K from 1 to 4, eta 2 or 3, and
compression widths from 1 to 11, which covers the three standard sets.

## Where the code and its comments differ

- `src/algebraic/field.rs:171` says Montgomery reduction is exact for any 32-bit input.
  It is exact precisely when its subtraction stays in 32 bits
  (`Field.MontgomeryExactIff`); `Field.MontgomeryInexactNearTheEnds` has inputs on which
  it is not. Every call site is within the exact range.
- `src/algebraic/field.rs:172-176` bounds the accumulated sums by 12q^2 for coefficients
  within 3q/2. For n components within F and G the bound holds exactly when n * 2FG is
  within 12q^2 (`BaseMul.OddSumsWithinIff`, `BaseMul.SumsWithinIff`). Four components meet
  it when one operand is below q (`BaseMul.FourComponents`), as every caller ensures; with
  both at 3q/2 they do not (`BaseMul.TwelveSquaresExceeded`), but the sums stay within
  18q^2 and still reduce exactly (`BaseMul.WideSumsReduceExactly`).
- Message decoding does not tolerate all noise below q/4: a one bit decompresses to 1665
  and 1665 + 832 compresses to 0. `Encoding.BitSurvivesIff` has the exact ranges, and the
  decryption theorem is stated with them, as an equivalence.
- The hash check at `src/lib.rs:560-572` is documented as a fresh hash of the embedded
  key, and hashes its coefficient-normalized re-serialization. The two checks agree under
  every hash exactly when every embedded field is below q (`Kem.HashChecksAgreeIff`); on
  any other key they can differ (`Kem.NonCanonicalIsAccepted`), and
  `Kem.HighFieldIsAccepted` has a concrete one. `Kem.ParseDecapsulationKey` states what
  the code does.

## Model

| member | source | states |
|---|---|---|
| `Kem.Decapsulate` | src/lib.rs:491-528 | with m' the decryption and the digest SHA3-512(m' || h): the left half of the digest when encrypting m' under the right half gives the ciphertext byte for byte, and otherwise 32 bytes of SHAKE256(z || c) |
| `Kem.DecapsulationCases` | src/lib.rs:491-528 | the same two cases of what decapsulation depends on: residues, hash, rejection seed and ciphertext |
| `Kem.DecapsulationAgrees` | src/lib.rs:285-302 | decapsulating an encapsulation under a generated key returns the encapsulated secret whenever every coefficient of the encryption noise is tolerated by its message bit |
| `Kem.DecapsulationAgreesWhenDecrypted` | src/lib.rs:491-528 | for any valid key, if decryption recovers m then decapsulation agrees with encapsulation of m |
| `Kem.Exchange` | src/lib.rs:412-432 | a whole run, on any backend: generate, encapsulate, parse the ciphertext (which is always accepted), decapsulate; both sides hold one secret whenever the noise is tolerated |
| `Kem.ParsedDecapsulatesAlike` | src/lib.rs:546-583 | a key parsed from a serialization decapsulates every ciphertext to the same secret as the original, whatever representatives it holds |
| `Kem.SerializedIsAccepted` | src/lib.rs:445-461 | the serialization of a valid decapsulation key always passes the hash check |
| `Kem.ParseDecapsulationKey` | src/lib.rs:546-583 | accepts exactly when the length is right and the stored hash is SHA3-256 of the re-serialized (coefficient-normalized) embedded key; which error otherwise; from which bytes each part of the parsed key comes |
| `Kem.NormalizedIsRawIff` | src/lib.rs:560-572 | the parser hashes the embedded key as it stands exactly when every field of it is below q |
| `Kem.HashChecksAgreeIff` | src/lib.rs:546-572 | the check the parser makes and the documented check of the embedded bytes agree under every hash exactly when every field is below q |
| `Kem.NonCanonicalIsAccepted` | src/lib.rs:560-572 | on any key with a field not below q the two differ: primitives under which the parser accepts and the documented check refuses |
| `Kem.HighFieldIsAccepted` | src/lib.rs:560-572 | a concrete such key for every parameter set: its first embedded coefficient field holds q |
| `Kem.ParseEncapsulationKey` | src/lib.rs:321-340 | accepts exactly the strings of the right length whose 12-bit fields are all below q, re-serializes them unchanged, and says which error otherwise |
| `Kem.SerializedEncapsulationKeyIsAccepted` | src/lib.rs:237-239 | a serialized encapsulation key always passes the modulus check |
| `Kem.SameBytesEncapsulateAlike` | src/lib.rs:285-302 | two keys with one serialization agree on every value encapsulation depends on |
| `Kem.ReencodedMatches` | src/lib.rs:335-337 | re-encoding a parsed key reproduces its bytes exactly when every field is canonical |
| `Kem.EncapsulateDerand` | src/lib.rs:285-302 | the secret is the left half of SHA3-512(m || H(ek)) and the ciphertext encrypts m under the right half |
| `Kem.GenerateDerand` | src/lib.rs:412-432 | splits the seed into d and z; rho is the left half of SHA3-512(d || k) and the key stands for the secret and error sampled from the right half |
| `Kem.NewEncapsulationKey` | src/lib.rs:215-230 | the cached hash is SHA3-256 of the serialized key |
| `Kem.ConditionalSelect` | src/lib.rs:515-518 | the byte-wise selection loop returns one whole secret or the other |
| `Kem.CiphertextIsWords` | src/PKE.rs:277-289 | ciphertext lengths are multiples of eight, which the word-wise comparison needs |
| `Kem.DecapsulationKeyToBytes` | src/lib.rs:445-461 | the bytes are the secret, the encapsulation key, its hash and z, each at its own place |
| `Kem.SerializedParts` | src/lib.rs:555-575 | splitting a serialized key gives back the residues, hash and rejection seed it was made from |
| `Pke.PkeRoundTrip` | src/PKE.rs:200-210 | decryption undoes encryption exactly when every coefficient of e^T y + e2 + c_v - s^T (e1 + c_u) is tolerated: for every seed, message, randomness, K up to 4 and any hash functions |
| `Pke.KeyGen` | src/PKE.rs:310-357 | rho and sigma are the halves of SHA3-512(d || k); s_i is sampled from SHAKE256(sigma || i) and e_i from SHAKE256(sigma || K + i) at eta1; component i of the keys is NTT(s_i) and (A s_hat)_i + NTT(e_i) |
| `Pke.EncryptMessage` | src/PKE.rs:130-154 | the bytes are those of Algorithm 14 of FIPS 203 on the residues of the key, which `Pke.EncryptionParts` spells out |
| `Pke.EncryptionStreams` | src/PKE.rs:130-138 | y_i is sampled from SHAKE256(r || i) at eta1, e1_i from SHAKE256(r || K + i) and e2 from SHAKE256(r || 2K) at eta2 |
| `Pke.EncryptionParts` | src/PKE.rs:143-154 | part i of the ciphertext encodes NTT^-1 of row i of A^T with y_hat, plus e1_i; the last part NTT^-1 of t_hat with y_hat, plus e2, plus the message |
| `Pke.RunNoiseIs` | src/PKE.rs:200-210 | the noise in the decryption theorem is e^T y + e2 + c_v - s^T (e1 + c_u), with c_u and c_v what compression adds to u and v |
| `Pke.StandardSets` | src/parameters.rs:240-360 | the three standard parameter sets and their ciphertext sizes |
| `Pke.DecryptMessage` | src/PKE.rs:200-210 | the message is that of Algorithm 15 of FIPS 203 on the residues of the key, which `PkeSpec.DecryptionParts` spells out |
| `PkeSpec.DecryptionParts` | src/PKE.rs:200-210 | component j of u is decoded from bytes 32 du j to 32 du (j + 1), v from the rest, and the message encodes v minus NTT^-1 of s_hat with NTT(u) |
| `Pke.EncryptedCorrect` | src/PKE.rs:143-151 | u and v as computed on words stand for A^T y + e1 and t^T y + e2 + mu |
| `Pke.CiphertextFromUV` | src/PKE.rs:226-249 | component i of u is encoded at bytes 32 du i to 32 du (i + 1), and v after the last |
| `PkeSpec.CiphertextParts` | src/PKE.rs:226-249 | the same placement for the ciphertext of any u and v |
| `Pke.StageVector` | src/PKE.rs:237-240 | the chunk loop fills block i with the encoding of component i |
| `Pke.CtEq` | src/PKE.rs:277-289 | the XOR fold over 64-bit words is zero exactly when the byte strings are equal |
| `Pke.MatrixIsCanonical` | src/PKE.rs:368-400 | every entry of the expanded matrix and its transpose is a canonical representative |
| `Pke.StoredTranspose` | src/algebraic/matrix.rs:37-39 | transposing stored words transposes the matrix they stand for |
| `Pke.MatrixTimesUntransformed` | src/PKE.rs:145 | each row is dotted with the cached vector, taken back to the ring and added to its error |
| `Pke.PublicVectorWords` | src/PKE.rs:343 | each row is dotted with the cached secret, rescaled and added to its transformed error |
| `Pke.NttOf` | src/algebraic/poly.rs:115-120 | the in-place transform followed by the split storage |
| `Pke.NttInverseOf` | src/algebraic/poly.rs:251-256 | the re-interleaving followed by the in-place inverse |
| `Pke.DotCached` | src/algebraic/vector.rs:188-198 | the cached dot product uses each component with its own cache |
| `Pke.DecodeVectorWords` | src/encoding.rs:144-151 | every component decodes from its own chunk to the decompressed residues, canonical |
| `PkeSpec.DecryptionEquation` | src/PKE.rs:200-210 | decrypting (u + c_u, v + c_v) leaves the message polynomial plus e^T y + e2 + c_v - s^T (e1 + c_u), for every matrix, secret, error and message |
| `PkeSpec.DecryptsIff` | src/PKE.rs:130-154 | over Z/q, through compression and packing, the message comes back exactly when each noise coefficient is tolerated |
| `PkeSpec.DecodeOfEncodeVector` | src/encoding.rs:144-151 | decoding an encoded vector rounds each component by compression, nothing else |
| `PkeSpec.RoundedAt` | src/algebraic/field.rs:207-225 | compression and back is round((q / 2^d) (round((2^d / q) x) mod 2^d)), coefficient by coefficient |
| `PkeSpec.SplitCiphertext` | src/PKE.rs:201-204 | the two parts of a ciphertext decode to the rounded u and v |
| `PkeWords.PublicWordsCorrect` | src/PKE.rs:337-343 | on words, A s_hat rescaled plus e_hat stands for the public vector over Z/q and stays within 3404 |
| `PkeWords.EncryptUWordsCorrect` | src/PKE.rs:145 | on words, u stands for NTT^-1(A^T y_hat) + e1 with no wrap |
| `PkeWords.EncryptVWordCorrect` | src/PKE.rs:151 | on words, v stands for NTT^-1(t^T y_hat) + e2 + mu with no wrap, for any t_hat within 4993 |
| `PkeWords.DecryptWWordCorrect` | src/PKE.rs:203-207 | on words, w stands for v - NTT^-1(s^T u_hat) with no wrap, for any canonical or reduced s_hat |
| `PkeWords.DotUntransformed` | src/algebraic/vector.rs:188-198 | the inverse transform of a cached dot product carries no Montgomery factor and stays within 2250 |
| `PkeWords.DotMontgomery` | src/algebraic/poly.rs:261-263 | rescaling a cached dot product by R leaves the true transform-domain value |
| `PkeWords.NttVectorCorrect` | src/algebraic/vector.rs:43-45 | componentwise transform of any vector within the entry bound |
| `PkeWords.AddWordsCorrect` | src/algebraic/poly.rs:171-177 | coefficient-wise addition is exact and additive on residues when the bounds fit |
| `PkeWords.SubWordsCorrect` | src/algebraic/poly.rs:189-195 | coefficient-wise subtraction likewise |
| `TqAlgebra.MatrixMovesAcross` | src/algebraic/matrix.rs:65-74 | (A s) . y equals (A^T y) . s for every matrix and vectors of transforms |
| `TqAlgebra.DotOfTransforms` | src/algebraic/vector.rs:188-198 | the dot product of transforms is the transform of the inner product modulo X^256 + 1 |
| `TqAlgebra.InnerProductOfOne` | src/algebraic/vector.rs:188-198 | the inner product of one component is the product modulo X^256 + 1 |
| `TqAlgebra.InnerProductSplits` | src/algebraic/vector.rs:188-198 | and that of joined vectors is the sum of the parts |
| `TqAlgebra.MultiplyAssociates` | src/algebraic/poly/arch/generic.rs:151-167 | base multiplication is associative |
| `TqAlgebra.MultiplyCommutes` | src/algebraic/poly/arch/generic.rs:151-167 | base multiplication is commutative |
| `TqAlgebra.MultiplyDistributes` | src/algebraic/poly/arch/generic.rs:151-167 | base multiplication distributes over addition |
| `TqAlgebra.UntransformedOfTransformed` | src/algebraic/poly/arch/generic.rs:72-100 | over Z/q the inverse transform with its 1/128 undoes the forward one |
| `TqAlgebra.TransformedOfUntransformed` | src/algebraic/poly/arch/generic.rs:72-100 | and the forward one undoes the inverse |
| `RingProduct.NegacyclicProduct` | src/algebraic/poly.rs:374-382 | transform, base multiplication and inverse transform of any two polynomials with coefficients in (-q, q) give exactly their product modulo X^256 + 1 and q |
| `RingProduct.InverseOfNttElement` | src/algebraic/poly.rs:251-256 | the inverse transform of a transform is R times the polynomial, for every input within the entry bound |
| `RingProduct.NttElementCorrect` | src/algebraic/poly.rs:115-120 | the stored transform stands for Algorithm 9 and its representatives are centered |
| `RingProduct.InverseElementCorrect` | src/algebraic/poly.rs:251-256 | the inverse of any |x| <= 16383 stands for 512 times the unscaled inverse and stays within 2250 |
| `Transform.NttIsHomomorphism` | src/algebraic/poly/arch/generic.rs:42-62 | the transform of a product modulo X^n - w is the slot-wise product of the transforms, at every node of the transform tree |
| `Transform.NttIsRemainders` | src/algebraic/poly/arch/generic.rs:42-62 | each pair of transform coefficients is the remainder of f modulo X^2 - zeta^(2 BitRev7(i) + 1) |
| `Transform.InverseOfNtt` | src/algebraic/poly/arch/generic.rs:72-100 | each inverse stage undoes its forward stage up to a factor 2: n/2 over a block of n |
| `Transform.NttOfInverse` | src/algebraic/poly/arch/generic.rs:72-100 | and the forward stages undo the inverse ones up to the same factor |
| `Transform.ProductViaNtt` | src/algebraic/poly/arch/generic.rs:151-167 | the negacyclic product through the transform, over Z/q |
| `Transform.FoldThenJoin` | src/algebraic/poly/arch/generic.rs:81-93 | an inverse butterfly of a split doubles the polynomial when the two zetas multiply to -1 |
| `Transform.JoinThenFold` | src/algebraic/poly/arch/generic.rs:81-93 | a split of an inverse butterfly doubles both halves |
| `Polynomials.ProductIsConvolution` | src/algebraic/poly.rs:374-382 | the product used throughout is the wrapped schoolbook convolution |
| `Polynomials.FoldIsHomomorphism` | src/algebraic/poly/arch/generic.rs:42-62 | reducing modulo a factor X^n -+ z commutes with multiplication |
| `ZetaTables.ZetaInverses` | src/algebraic/poly/arch.rs:92-101 | ZETA_RAW[2^s + i] * ZETA_RAW[2^(s+1) - 1 - i] is -1 mod q, for every stage |
| `ZetaTables.ZetaSquares` | src/algebraic/poly/arch.rs:92-101 | each zeta is a square root of its parent node's root |
| `ZetaTables.ZetaIsPower` | src/algebraic/poly/arch.rs:92-101 | entry i is 17^BitRev7(i) mod q |
| `ZetaTables.GammaIsPower` | src/algebraic/poly/arch.rs:129-138 | entry i before Montgomery form is 17^(2 BitRev7(i) + 1) mod q |
| `ZetaTables.GammaIsRoot` | src/algebraic/poly/arch.rs:129-138 | the gammas are the roots of the transform's leaves |
| `ZetaTables.ZetaBarrett` | src/algebraic/poly/arch.rs:109-122 | each multiplier is the integer nearest zeta * 2^15 / q: off by at most half of q after scaling, and below 2^15 |
| `ZetaTables.GammaMont` | src/algebraic/field.rs:120-134 | the table holds the Montgomery forms of the gammas |
| `NttCorrect.NttWordsCorrect` | src/algebraic/poly/arch/generic.rs:42-62 | the lazy transform on words computes Algorithm 9 on residues from any |x| <= 9471 and ends within 1664 |
| `NttCorrect.NttTreeCorrect` | src/algebraic/poly/arch/generic.rs:42-62 | residues and bounds together, by induction over the subtrees |
| `NttCorrect.ButterfliesCorrect` | src/algebraic/poly/arch/generic.rs:51-55 | every addition and subtraction of a block is exact, and its halves are the remainders modulo the two factors |
| `NttCorrect.StageBounds` | src/algebraic/poly/arch/generic.rs:42-62 | after s stages from canonical or noise inputs every coefficient is below (s + 1)q, and no sum or difference the next stage forms wraps |
| `NttCorrect.StageGrows` | src/algebraic/poly/arch/generic.rs:46-57 | one stage adds at most q - 1 to the representatives |
| `NttCorrect.SevenStages` | src/algebraic/poly/arch/generic.rs:45-57 | the seven strides in order are the whole transform |
| `NttCorrect.InverseNttWordsCorrect` | src/algebraic/poly/arch/generic.rs:72-100 | the lazy inverse on words computes the scaled Algorithm 10 on residues from any |x| <= 16383 |
| `NttCorrect.InverseTreeCorrect` | src/algebraic/poly/arch/generic.rs:75-95 | reducing only at strides 2 and 16 keeps the stored words of every joined block within the bound of its level, 26624 <= 8q at the root, with the right residues |
| `NttCorrect.InverseButterfliesCorrect` | src/algebraic/poly/arch/generic.rs:81-93 | every addition and subtraction of an inverse block is exact, and the block joins the residues of its halves |
| `NttCorrect.InverseStageBounds` | src/algebraic/poly/arch/generic.rs:72-95 | from any |x| <= 16383, the words stored by each of the seven inverse stages are within 8q and no sum or difference the next stage forms wraps |
| `NttCorrect.SevenInverseStages` | src/algebraic/poly/arch/generic.rs:75-95 | the seven strides in order are the whole inverse transform before its scale |
| `NttCorrect.InverseBoundFits` | src/algebraic/poly/arch/generic.rs:84-90 | the bounds of the reduction schedule: doubled bounds never leave sixteen bits, and the last is 26624 <= 8q |
| `NttSpec.StagesAreTree` | src/algebraic/poly/arch/generic.rs:45-57 | running stage after stage equals finishing each subtree |
| `NttSpec.InverseStagesAreTree` | src/algebraic/poly/arch/generic.rs:75-95 | the same for the inverse |
| `ScalarNtt.Ntt` | src/algebraic/poly/arch/generic.rs:42-62 | the in-place nested loops compute exactly the transform words |
| `ScalarNtt.StageInPlace` | src/algebraic/poly/arch/generic.rs:46-56 | the middle loop is one stage and advances the zeta index by its block count |
| `ScalarNtt.ButterflyBlock` | src/algebraic/poly/arch/generic.rs:51-55 | the innermost loop replaces one block by its butterflies |
| `ScalarNtt.InverseNtt` | src/algebraic/poly/arch/generic.rs:72-100 | the in-place inverse loops compute exactly the inverse words |
| `ScalarNtt.InverseStageInPlace` | src/algebraic/poly/arch/generic.rs:76-94 | one inverse stage, zetas read downwards |
| `ScalarNtt.ReduceInPlace` | src/algebraic/poly/arch/generic.rs:59-61 | the closing reduction of every coefficient |
| `ScalarNtt.ScaleInPlace` | src/algebraic/poly/arch/generic.rs:97-99 | the closing scale of every coefficient |
| `Field.Barrett` | src/algebraic/field.rs:138-147 | congruent and within 1664, for every sixteen-bit input |
| `Field.Value` | src/algebraic/field.rs:76-82 | the canonical representative |
| `Field.New` | src/algebraic/field.rs:68-72 | the canonical element of every u16 |
| `Field.DivideByQ` | src/algebraic/field.rs:38-42 | the multiply-and-shift is the exact quotient on the whole stated range |
| `Field.MontgomeryReduce` | src/algebraic/field.rs:152-156 | a * R^-1 mod q, within |a| / 2^16 + q/2, whenever the subtraction fits |
| `Field.MontgomeryExactIff` | src/algebraic/field.rs:171-180 | the reduction is exact mod q for precisely the inputs whose subtraction stays in 32 bits |
| `Field.MontgomeryInexactNearTheEnds` | src/algebraic/field.rs:171-180 | concrete 32-bit inputs on which it is not exact, against the comment |
| `Field.MontgomeryFitsBound` | src/algebraic/field.rs:171-180 | every |a| <= 2^31 - 2^15 q - 1 is safe |
| `Field.Mul` | src/algebraic/field.rs:291-301 | the Montgomery product, congruent to a b R^-1, with its bound |
| `Field.ToMontgomery` | src/algebraic/field.rs:96-100 | scales by R |
| `Field.BarrettConstMul` | src/algebraic/field.rs:189-195 | the product with a canonical constant, within (-q, q) |
| `Field.Compress` | src/algebraic/field.rs:207-212 | round((2^d / q) x) mod 2^d of the residue |
| `Field.Decompress` | src/algebraic/field.rs:221-225 | round((q / 2^d) y), canonical |
| `Field.Add` | src/algebraic/field.rs:271-280 | exact, and additive on residues, when the sum fits |
| `Field.Sub` | src/algebraic/field.rs:282-289 | exact, and subtractive on residues, when the difference fits |
| `Field.MontgomeryConstants` | src/algebraic/field.rs:24-36 | the constants satisfy the identities they are named for |
| `BaseMul.MultiplyWordsCorrect` | src/algebraic/poly/arch/generic.rs:151-167 | the word product stands for R^-1 times Algorithm 11, for operands within 31000 |
| `BaseMul.Multiply` | src/algebraic/poly/arch/generic.rs:151-167 | the loop computes exactly those words |
| `BaseMul.DotWordsCorrect` | src/algebraic/poly.rs:288-296 | whenever the entry bounds keep n * 2FG within 12q^2 (four components, one operand within 3q/2 and the other below q): sums within 12q^2, one exact reduction within 3694, residues R^-1 times the dot product |
| `BaseMul.SumsCorrect` | src/algebraic/poly/arch/generic.rs:216-228 | each slot of the accumulated sums has the residues of the slot of the dot product, for any words |
| `BaseMul.SumBounds` | src/algebraic/poly/arch/generic.rs:216-228 | every degree-1 sum of n components within F and G is within n * 2FG, and every degree-0 sum too when G is at least q - 1, the size of a cache entry |
| `BaseMul.OddSumsWithinIff` | src/algebraic/field.rs:172-176 | the documented 12q^2 holds of every degree-1 sum of n components within F and G exactly when n * 2FG <= 12q^2, for all n, F and G |
| `BaseMul.SumsWithinIff` | src/algebraic/field.rs:172-176 | and of both planes exactly then, once the bound of the cached operand is at least q - 1 |
| `BaseMul.FourComponents` | src/algebraic/field.rs:172-176 | up to four components meet it when one operand is within 3q/2 and the other below q |
| `BaseMul.DotIsSumOfProducts` | src/algebraic/poly.rs:276-287 | R^-1 times the dot product is the sum of the per-component reduced products |
| `BaseMul.WideSumsReduceExactly` | src/algebraic/field.rs:172-176 | with both operands within 3q/2 the sums of either plane stay within 18q^2 and still reduce exactly |
| `BaseMul.TwelveSquaresExceeded` | src/algebraic/field.rs:172-176 | concrete vectors within 3q/2 whose sum exceeds 12q^2, against the comment |
| `BaseMul.AccumulatedDot` | src/algebraic/poly.rs:288-296 | accumulating every component and reducing once gives the dot words |
| `BaseMul.ProductAccumulator.Accumulate` | src/algebraic/poly/arch/generic.rs:216-228 | adds one component to both planes in place |
| `BaseMul.ProductAccumulator.Reduce` | src/algebraic/poly/arch/generic.rs:236-247 | one Montgomery reduction per coefficient |
| `BaseMul.CacheSlot` | src/algebraic/poly.rs:267-274 | a cache entry is gamma times the odd coefficient, below q for every word |
| `BaseMul.PairProductsAt` | src/algebraic/poly/arch/generic.rs:159-164 | the two words of a slot are the degree-one product modulo X^2 - gamma |
| `BaseMul.Split` | src/algebraic/poly/arch/generic.rs:173-184 | evens-then-odds storage, undone by the interleaving |
| `BaseMul.SplitOfInterleave` | src/algebraic/poly/arch/generic.rs:190-201 | and the other way round |
| `BaseMul.Pack` | src/algebraic/poly/arch/generic.rs:173-184 | the loop computes the split |
| `BaseMul.Unpack` | src/algebraic/poly/arch/generic.rs:190-201 | the loop computes the interleaving |
| `AsmPipelines.Stride128` | src/algebraic/poly/arch/neon.rs:229-309 | preamble, six steady passes and postamble, register for register, leave memory as the plain stride-128 stage does; every vector is written once |
| `AsmPipelines.Stride64Group` | src/algebraic/poly/arch/neon.rs:126-204 | the stride-64 schedule (two passes) leaves its group as the plain stage does and the rest untouched; every vector is written once |
| `AsmPipelines.StorePair` | src/algebraic/poly/arch/neon.rs:271-272 | a paired store only ever targets vectors not written before |
| `AsmPipelines.VectorsCover` | src/algebraic/poly/arch/neon.rs:229-309 | the written vectors are all vectors of both halves |
| `AsmPipelines.ChainTwiddles` | src/algebraic/poly/arch/neon.rs:248-253 | mul, sqrdmulh and mls under one zeta twiddle a register |
| `AsmPipelines.PairFinishes` | src/algebraic/poly/arch/neon.rs:259-272 | the add and sub of an in-flight pair are its slices of the stage |
| `SimdTransforms.NttNeon` | src/algebraic/poly/arch/neon.rs:722-851 | NEON transform on either path: the same representatives as the scalar transform on every input |
| `SimdNtt.NttAvx2` | src/algebraic/poly/arch/avx2.rs:632-727 | AVX2 transform: the same representatives as the scalar transform on every input |
| `SimdNtt.HeadTrip` | src/algebraic/poly/arch/avx2.rs:653-677 | the merged stride-128/64 trip is the two stages in sequence |
| `SimdNtt.QuarterTrip` | src/algebraic/poly/arch/avx2.rs:679-701 | the merged quarter trip is its two (AVX2) or three (NEON) stages in sequence |
| `SimdNtt.QuarterNeonIsStages` | src/algebraic/poly/arch/neon.rs:785-826 | eight registers through three levels equal three stages of their quarter |
| `SimdNtt.QuarterAvx2IsStages` | src/algebraic/poly/arch/avx2.rs:681-701 | four registers through two levels equal two stages of their quarter |
| `SimdNtt.StageAt` | src/algebraic/poly/arch/generic.rs:51-55 | the two words a stage writes at any offset of any block |
| `SimdNtt.VectorPair` | src/algebraic/poly/arch/avx2.rs:185-191 | one vector butterfly computes its slices of a whole stage |
| `SimdTransforms.PipelinedHead` | src/algebraic/poly/arch/neon.rs:745-751 | the three pipelined blocks are the two stages |
| `SimdTransforms.InverseNttSimd` | src/algebraic/poly/arch/avx2.rs:738-813 | both vectorized inverses: the scalar representatives on every input |
| `SimdTransforms.InverseStageVector` | src/algebraic/poly/arch/neon.rs:899-927 | one vectorized inverse stage, reducing at stride 16 only |
| `SimdTransforms.ScaleVectors` | src/algebraic/poly/arch/neon.rs:929-935 | the vector scale is the scalar one |
| `Lanes.MulLaneIsScalar` | src/algebraic/poly/arch/avx2.rs:54-68 | the mullo/mulhi sequence and NEON's widening sequence give the scalar Montgomery product |
| `Lanes.ConstMulLaneIsScalar` | src/algebraic/poly/arch/neon.rs:97-105 | both constant-multiplication sequences give the scalar representative |
| `Lanes.ReduceLaneIsScalar` | src/algebraic/poly/arch/avx2.rs:199-210 | both Barrett sequences give the scalar representative |
| `Lanes.CanonicalLaneIsScalar` | src/algebraic/poly/arch/neon.rs:325-334 | the lane canonicalization is the scalar one |
| `Lanes.CompressMultiplierExact` | src/algebraic/poly/arch/neon.rs:317-319 | the rounded ceiling multiplier divides exactly for every canonical coefficient and width up to 12 |
| `Lanes.CompressLaneIsScalar` | src/algebraic/poly/arch/avx2.rs:225-237 | both lane compressions are the scalar one for every representative |
| `Lanes.DecompressLaneIsScalar` | src/algebraic/poly/arch/neon.rs:388-419 | both lane decompressions are the scalar one for every d-bit value |
| `Lanes.NarrowReduceIsScalar` | src/algebraic/poly/arch/neon.rs:56-66 | NEON's reduction of a 32-bit sum is the scalar one, for every sum |
| `SimdKernels.Pack` | src/algebraic/poly/arch/avx2.rs:97-140 | the deinterleaving loop of either instruction set fills the split storage |
| `SimdKernels.Unpack` | src/algebraic/poly/arch/neon.rs:488-515 | the interleaving loop of either instruction set restores natural order |
| `SimdKernels.DeinterleavedWindow` | src/algebraic/poly/arch/avx2.rs:106-136 | the byte shuffle, quarter swap and half gathers separate even lanes from odd ones |
| `SimdKernels.InterleavedWindow` | src/algebraic/poly/arch/avx2.rs:159-174 | unpacking within halves and gathering the halves interleaves two registers |
| `SimdKernels.Multiply` | src/algebraic/poly/arch/avx2.rs:412-457 | the vector base multiplication gives the scalar words, on either instruction set |
| `SimdKernels.CompressElement` | src/algebraic/poly/arch/avx2.rs:270-310 | the vector compression gives the scalar values, with the scalar fall-back of NEON for the other widths |
| `SimdKernels.CompressedVector` | src/algebraic/poly/arch/avx2.rs:288-305 | one register: canonical, widened, divided, masked and packed lanes are the compressed ones in order |
| `SimdKernels.DivideVectorAt` | src/algebraic/poly/arch/avx2.rs:225-236 | the divisions in 64-bit lanes, recombined, divide every 32-bit lane |
| `SimdKernels.PackLanesInOrder` | src/algebraic/poly/arch/avx2.rs:258-262 | the quarter swap undoes the interleaving of the saturating pack, which never saturates |
| `SimdKernels.DecompressElement` | src/algebraic/poly/arch/neon.rs:388-419 | the vector decompression gives the scalar words |
| `SimdKernels.Canonical` | src/algebraic/poly/arch/neon.rs:427-455 | the vector canonical form is the residues in natural order |
| `NeonBaseMul.Accumulate` | src/algebraic/poly/arch/neon.rs:605-662 | sixteen windows of widening multiply-accumulates add one component to both planes |
| `NeonBaseMul.AccumulatedIsGained` | src/algebraic/poly/arch/neon.rs:639-646 | two wrapping multiply-accumulates add the wrapped sum of both products |
| `NeonBaseMul.Reduce` | src/algebraic/poly/arch/neon.rs:668-707 | the narrowing reduction gives the scalar words of both planes |
| `NeonBaseMul.AccumulatedDotNeon` | src/algebraic/poly/arch/neon.rs:605-707 | any run of accumulate calls and one reduce gives exactly the scalar dot words |
| `Kernels.Ntt` | src/algebraic/poly/arch.rs:25-38 | every backend leaves the same words |
| `Kernels.NttInverse` | src/algebraic/poly/arch.rs:25-38 | likewise |
| `Kernels.SplitNatural` | src/algebraic/poly/arch.rs:25-38 | every backend stores the same split |
| `Kernels.InterleaveHalves` | src/algebraic/poly/arch.rs:25-38 | every backend restores the same order |
| `Kernels.Multiply` | src/algebraic/poly/arch.rs:25-38 | every backend multiplies to the same words |
| `Kernels.AccumulatedDot` | src/algebraic/poly/arch.rs:57-77 | every backend accumulates and reduces to the same words |
| `Kernels.Compress` | src/algebraic/poly/arch.rs:25-38 | every backend compresses to the same values |
| `Kernels.Decompress` | src/algebraic/poly/arch.rs:25-38 | every backend decompresses to the same words |
| `Kernels.Canonical` | src/algebraic/poly/arch.rs:25-38 | every backend gives the same canonical residues |
| `Kernels.PackBits` | src/encoding/arch.rs:20-25 | every backend packs to the same bytes |
| `Kernels.UnpackBits` | src/encoding/arch.rs:20-25 | every backend unpacks the same values, from any length |
| `Avx2BaseMul.AccumulatedDotAvx2` | src/algebraic/poly/arch/avx2.rs:507-618 | any run of accumulate calls and one reduce gives exactly the scalar dot words |
| `Avx2BaseMul.Avx2Accumulator.Accumulate` | src/algebraic/poly/arch/avx2.rs:507-571 | adds one component in unpack order, in place |
| `Avx2BaseMul.Avx2Accumulator.Reduce` | src/algebraic/poly/arch/avx2.rs:581-618 | reduces and packs back to pair order |
| `Avx2BaseMul.WideningAt` | src/algebraic/poly/arch/avx2.rs:467-480 | recombined mullo/mulhi halves are the true products of the unpacked lanes |
| `Avx2BaseMul.PackInvertsUnpack` | src/algebraic/poly/arch/avx2.rs:606-611 | the pack order inverts the unpack order |
| `Avx2BaseMul.PackedLane` | src/algebraic/poly/arch/avx2.rs:581-618 | each packed lane is the reduction of its pair; saturation never fires |
| `Avx2BaseMul.MontgomeryWide` | src/algebraic/poly/arch/avx2.rs:485-498 | the 32-bit lane reduction is the scalar one |
| `Packing.Pack` | src/encoding/arch/generic.rs:13-33 | the accumulator loop writes the base-2^d number in bytes and leaves the tail zero |
| `Packing.Unpack` | src/encoding/arch/generic.rs:43-76 | the word loop reads its digits back, short inputs as zero-padded |
| `Packing.BitLandsAt` | src/encoding/arch/generic.rs:10-11 | bit j of value i lands at global bit i d + j |
| `Packing.BitReadFrom` | src/encoding/arch/generic.rs:43-76 | bit j of unpacked value i is read from global bit i d + j |
| `Packing.UnpackOfPack` | src/encoding.rs:48-60 | unpacking inverts packing for all d-bit values |
| `Packing.PackOfUnpack` | src/encoding.rs:48-60 | packing inverts unpacking on 32 d bytes |
| `Packing.WordReader.NextWord` | src/encoding/arch/generic.rs:46-59 | the closure yields the next word of the zero-extended input |
| `Packing.FlushWord` | src/encoding/arch/generic.rs:23-29 | flushing a word keeps the accumulator invariant |
| `Packing.TakeWord` | src/encoding/arch/generic.rs:65-68 | taking a word keeps the accumulator invariant |
| `SimdPacking.PackGathered` | src/encoding/arch/avx2.rs:83-126 | the two overlapping stores per group write the scalar packing, at 10, 11 and 12 bits |
| `SimdPacking.PackedByteIsScalar` | src/encoding/arch/neon.rs:80-140 | every gathered byte is its byte of the scalar packing, on both instruction sets |
| `SimdPacking.Pack` | src/encoding/arch/neon.rs:66-73 | the dispatch is the scalar packing at every width |
| `SimdUnpacking.UnpackLaneIsScalar` | src/encoding/arch/avx2.rs:150-203 | every gathered lane is its scalar value at every width, group and input length, windows past the end included |
| `SimdUnpacking.UnpackGathered` | src/encoding/arch/neon.rs:181-229 | the gathered unpackers are the scalar one |
| `SimdUnpacking.Unpack4` | src/encoding/arch/neon.rs:235-260 | the nibble zip is the scalar 4-bit unpacking |
| `SimdUnpacking.ControlsAgree` | src/encoding/arch/neon.rs:29-58 | NEON's tabulated controls equal AVX2's computed ones, and no gather passes byte 15 |
| `SimdUnpacking.Unpack` | src/encoding/arch/neon.rs:147-160 | the dispatch is the scalar unpacking for every width and length |
| `Encoding.ByteEncodeOfDecode` | src/encoding.rs:65-80 | re-encoding reproduces a block exactly when its 256 fields are below q |
| `Encoding.ByteDecodeOfEncode` | src/encoding.rs:65-80 | decoding an encoding gives the polynomial back |
| `Encoding.ByteEncodeElement` | src/encoding.rs:65-67 | the bytes depend on the residues only |
| `Encoding.EncodedBitAt` | src/encoding.rs:65-67 | bit j of coefficient i is bit 12 i + j of the encoding |
| `Encoding.DecodedElementResidues` | src/encoding.rs:76-80 | decoded fields are reduced mod q, canonical |
| `Encoding.CompressEncode` | src/encoding.rs:89-91 | the bytes depend on the residues only |
| `Encoding.CompressedBitAt` | src/encoding.rs:89-91 | bit j of compressed coefficient i is bit d i + j of the encoding |
| `Encoding.DecodeDecompress` | src/encoding.rs:95-97 | decompression of the unpacked values |
| `Encoding.DecodedCoefficient` | src/encoding.rs:95-97 | coefficient i is round((q / 2^d) y) of field i of the bytes |
| `Encoding.CompressWords` | src/algebraic/poly/arch/generic.rs:106-111 | compression of every coefficient depends on its residue only |
| `Encoding.DecompressWords` | src/algebraic/poly/arch/generic.rs:115-117 | decompressed coefficients are canonical |
| `BaseMul.Canonical` | src/algebraic/poly/arch/generic.rs:125-136 | the loop gives the canonical residues in natural order |
| `Encoding.BitSurvivesIff` | src/encoding.rs:103-111 | a message bit survives exactly noise in [-832, 832] (zero) or [-832, 831] (one) |
| `Encoding.MessageSurvivesIff` | src/encoding.rs:103-111 | a noisy message polynomial decodes to the message exactly when every coefficient is tolerated |
| `Encoding.MessageCoefficient` | src/encoding.rs:103-105 | coefficient i of the message polynomial is 1665 or 0 as bit i of the message is set or not |
| `Encoding.QuarterNoiseCanFail` | src/algebraic/field.rs:198-212 | a noise below q/4 that flips a one bit |
| `Keys.KeyBytesOfDecoded` | src/encoding.rs:116-139 | parsing and re-serializing a vector reproduces its bytes exactly when every field is canonical |
| `Keys.DecodedOfKeyBytes` | src/encoding.rs:116-139 | a serialized vector parses back to its residues |
| `Keys.KeyFields` | src/encoding.rs:132-139 | the fields of component i are those of bytes 384 i to 384 (i + 1): decoding reduces them mod q, the modulus check asks that all be below q |
| `Keys.EncryptionKeyToBytes` | src/PKE.rs:81-96 | component i is encoded at bytes 384 i to 384 (i + 1), and the seed follows |
| `Keys.EncryptionKeyFromBytes` | src/PKE.rs:104-122 | residues, seed and transposed matrix of a parsed key |
| `Keys.DecryptionKeyToBytes` | src/PKE.rs:172-177 | component i is encoded at bytes 384 i to 384 (i + 1) |
| `Keys.DecryptionKeyFromBytes` | src/PKE.rs:184-190 | a parsed secret with caches computed from its own components |
| `Keys.StageKey` | src/PKE.rs:87-92 | the chunk loop fills block i with component i |
| `Blocks.FlattenOfChunks` | src/encoding.rs:132-139 | cutting into chunks and joining gives the bytes back |
| `Blocks.ChunksOfFlatten` | src/encoding.rs:122-129 | joining blocks and cutting gives the blocks back |
| `Blocks.FlattenSlice` | src/encoding.rs:116-129 | block i of a joined string is at bytes size * i to size * (i + 1) |
| `Blocks.ChunkIsSlice` | src/encoding.rs:132-151 | and so is chunk i of a cut one |
| `MatrixSampling.SampleNttX4` | src/sampling.rs:79-102 | terminates when each stream has 256 accepted candidates, and each lane is the first 256 of its own stream |
| `MatrixSampling.SampleNtt` | src/sampling.rs:50-62 | the first 256 accepted candidates of the stream, block by block |
| `MatrixSampling.RejectInto` | src/sampling.rs:107-119 | advances every lane by one squeezed block and says whether all are full |
| `MatrixSampling.Expand` | src/PKE.rs:368-400 | A[i][j] is sampled from SHAKE128(rho || j || i), for every K up to 4, over-sampled lanes discarded |
| `MatrixSampling.PublicMatrixIs` | src/PKE.rs:360-366 | row i, column j of the matrix every theorem speaks of is sampled from SHAKE128(rho || j || i) |
| `MatrixSampling.MatrixEntries.Next` | src/PKE.rs:380-397 | the closure yields the entries in row-major order |
| `MatrixSampling.Reject` | src/sampling/arch.rs:19-24 | every backend keeps one contract |
| `Rejection.RejectScalar` | src/sampling/arch/generic.rs:16-36 | appends the accepted candidates in order until 256 are held, and leaves the rest alone |
| `Rejection.FirstAcceptedFrom` | src/sampling.rs:50-63 | any long enough read shows the same first 256 candidates |
| `Rejection.FirstAcceptedInOrder` | src/sampling.rs:50-63 | Algorithm 7 of FIPS 203: the 256 coefficients are the 12-bit candidates below q at increasing positions, and every candidate passed over is not below q |
| `Rejection.LaneAdvances` | src/sampling.rs:107-119 | what a lane holds depends on the bytes read, not on how they were grouped into blocks |
| `Rejection.LaneDone` | src/sampling.rs:107-119 | a full lane holds the first 256 accepted candidates; a short one has not read enough |
| `Rejection.KeptConcat` | src/sampling/arch/generic.rs:17-35 | acceptance works group by group |
| `VectorReject.RejectVector` | src/sampling/arch/avx2.rs:48-106 | agrees with the scalar kernel on out[..count] and the clamped count, inside the 264-element buffer |
| `VectorReject.CompactTable` | src/sampling/arch.rs:50-85 | the nested loops fill every row with the byte pairs of its set lanes, then padding |
| `VectorReject.CompactionPacks` | src/sampling/arch.rs:39-42 | shuffling by a row packs the selected lanes in order and zeroes the rest, for every mask |
| `VectorReject.MaskIsBits` | src/sampling/arch/neon.rs:89-91 | both acceptance masks have bit i set exactly when lane i is below q |
| `VectorReject.CandidatesInOrder` | src/sampling/arch/avx2.rs:79-86 | lane i is candidate i of the stream |
| `VectorReject.GroupStores` | src/sampling/arch/neon.rs:93-99 | one group stores its accepted candidates in order and counts them |
| `VectorReject.SelectedAreKept` | src/sampling/arch/avx2.rs:88-98 | selecting by the mask keeps exactly the accepted lanes |
| `Cbd.SampleCbdEta2` | src/sampling.rs:152-170 | the word-parallel sums equal the bit-by-bit definition at eta 2 |
| `Cbd.SampleCbdEta3` | src/sampling.rs:176-198 | and at eta 3 |
| `Cbd.CoefficientAtEta2` | src/sampling.rs:152-170 | Algorithm 8 of FIPS 203 at eta 2: coefficient i is bits 4i and 4i + 1 less bits 4i + 2 and 4i + 3 |
| `Cbd.CoefficientAtEta3` | src/sampling.rs:176-198 | and at eta 3: three bits from 6i less the next three |
| `Cbd.SamplePolyCbd` | src/sampling.rs:122-138 | every coefficient is within [-eta, eta] |
| `Cbd.PairSums` | src/sampling.rs:159 | two masked shifts sum every pair of bits in place |
| `Cbd.TripleSums` | src/sampling.rs:187 | three masked shifts sum every triple of bits in place |
| `Cbd.FieldIsBitSum` | src/sampling.rs:161-163 | a field of the sums is the sum of its eta stream bits |
| `Cbd.WordCoefficient` | src/sampling.rs:189-193 | two adjacent fields difference to the coefficient of Algorithm 8 |
| `NoiseSampler.CbdSampler.SampleElement` | src/sampling.rs:301-315 | the i-th draw is SamplePolyCBD of 64 eta bytes of SHAKE256(seed || (first + i) mod 256), across every refill width |
| `NoiseSampler.CbdSampler.SampleVector` | src/sampling.rs:318-320 | the next K draws in order, each from its own stream of SHAKE256 |
| `NoiseSampler.CbdSampler.Refill` | src/sampling.rs:304-308 | a refill keeps the run: at most one lane beyond the promised streams is ever squeezed |
| `NoiseSampler.CbdSampler.constructor` | src/sampling.rs:276-287 | starts the run at the first stream |
| `NoiseSampler.BatchWidth` | src/sampling.rs:292-298 | never more than one lane past the remaining streams |
| `Functions.NoiseIs` | src/functions.rs:72-83 | the noise of stream x is SamplePolyCBD of 64 eta bytes of SHAKE256(seed || x mod 256) |

## Left out

- SHA-3 and the batched sponges of `src/functions.rs`: opaque total functions with the stated input layout.
- Operating-system randomness (`generate`, `encapsulate`): only the derandomized cores are modelled.
- Zeroization, constant-time selection and the memory-checker hooks: not functional properties.
- The probability that decryption fails: the noise condition stays a hypothesis, stated exactly.
- The uncached dot product of `src/algebraic/vector.rs`: not on the scheme's path, and for K = 4 outside the inverse transform's entry bound.
- Memory safety of raw pointers beyond index bounds, register clobber lists and pipeline timing.
- Serialization buffers sized for the largest parameter set: the model allocates the exact size, so the zero tail that is cut off again does not appear.
- VectorReject.RejectVector: reads its shuffle rows from the function that `VectorReject.CompactTable` is proved to tabulate, not from the table built at compile time.
- SimdNtt.QuarterTrip: writes each quarter's consecutive vectors with one store of all sixty-four words.
- NoiseSampler.CbdSampler.SampleElement: requires an undrawn stream, as the debug assertion of the source does; what an over-drawn release build returns is not modelled.
- AsmPipelines.StoreIteration: issues the two paired stores of an iteration together, high half first; the source interleaves them with register-only instructions, which cannot be observed.
