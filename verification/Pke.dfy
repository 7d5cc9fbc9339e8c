/** K-PKE as the program runs it (`src/PKE.rs`): keys, key generation, encryption,
    decryption, serialization. Each method is proved equal to its Algorithm of FIPS 203
    over Z/q, so its bytes depend on residues only. */
module Pke {
  import opened Words
  import opened Polynomials
  import opened Bits
  import opened Functions
  import opened Cbd
  import opened NttSpec
  import opened BaseMul
  import opened RingProduct
  import opened TqAlgebra
  import opened Encoding
  import opened Blocks
  import opened PkeSpec
  import opened PkeWords
  import opened NoiseSampler
  import R = Rejection
  import opened MatrixSampling
  import Kernels

  datatype Params = Params(k: nat, eta1: nat, eta2: nat, du: nat, dv: nat)

  predicate IsParams(s: Params) {
    1 <= s.k <= 4 && IsEta(s.eta1) && IsEta(s.eta2) && 1 <= s.du <= 11 && 1 <= s.dv <= 11
  }

  function CiphertextSize(s: Params): nat {
    32 * s.du * s.k + 32 * s.dv
  }

  /** The parameter sets of table 2 of FIPS 203 and their ciphertext sizes. */
  lemma StandardSets()
    ensures IsParams(Params(2, 3, 2, 10, 4)) && CiphertextSize(Params(2, 3, 2, 10, 4)) == 768
    ensures IsParams(Params(3, 2, 2, 10, 4)) && CiphertextSize(Params(3, 2, 2, 10, 4)) == 1088
    ensures IsParams(Params(4, 2, 2, 11, 5)) && CiphertextSize(Params(4, 2, 2, 11, 5)) == 1568
  {
  }

  /** `CachedTqVector`: a vector with its multiplication caches. */
  datatype Cached = Cached(vector: seq<TqWords>, caches: seq<CacheWords>)

  /** The only constructor: every cache is computed from its own component. */
  function CacheVector(v: seq<TqWords>): Cached {
    Cached(v, CachesOf(v))
  }

  datatype EncryptionKey = EncryptionKey(tHat: seq<TqWords>, rho: Bytes32, aTranspose: seq<seq<TqWords>>)

  datatype DecryptionKey = DecryptionKey(sHat: Cached)

  function TransposeWords(a: seq<seq<TqWords>>, k: nat): (t: seq<seq<TqWords>>)
    requires IsWordMatrix(a, k, k)
    ensures IsWordMatrix(t, k, k)
  {
    seq(k, j requires 0 <= j < k => ColumnWords(a, k, j))
  }

  function ColumnWords(a: seq<seq<TqWords>>, k: nat, j: nat): (c: seq<TqWords>)
    requires IsWordMatrix(a, k, k) && j < k
    ensures |c| == k
  {
    seq<TqWords>(k, i requires 0 <= i < k => a[i][j])
  }

  /** What every encryption key of a run satisfies. */
  ghost predicate ValidEk(p: Primitives, s: Params, ek: EncryptionKey)
    requires IsParams(s)
  {
    && |ek.tHat| == s.k && AllBounded(ek.tHat, 4993)
    && ExpandTerminates(p, ek.rho, s.k)
    && ek.aTranspose == TransposeWords(PublicMatrix(p, ek.rho, s.k), s.k)
  }

  /** What every decryption key of a run satisfies. */
  predicate ValidDk(s: Params, dk: DecryptionKey) {
    |dk.sHat.vector| == s.k && dk.sHat == CacheVector(dk.sHat.vector) && AllBounded(dk.sHat.vector, 3328)
  }

  // ---- the matrix ----

  lemma SampledIsCanonical(stream: Stream)
    requires R.Fills(stream)
    ensures Bounded(R.SampledElement(stream), 3328)
  {
    hide R.FirstAccepted, R.Fills;
  }

  lemma MatrixIsCanonical(p: Primitives, rho: Bytes32, k: nat)
    requires 1 <= k <= 4 && ExpandTerminates(p, rho, k)
    ensures IsWordMatrix(PublicMatrix(p, rho, k), k, k)
    ensures MatrixBounded(TransposeWords(PublicMatrix(p, rho, k), k)) && MatrixBounded(PublicMatrix(p, rho, k))
  {
    hide Xof, R.Fills, R.SampledElement, ExpandTerminates, Bounded;
    forall i, j | 0 <= i < k && 0 <= j < k ensures Bounded(MatrixCell(p, rho, k, i, j), 3328) {
      CellFills(p, rho, k, i, j);
      SampledIsCanonical(Xof(p, rho, j, i));
    }
    hide MatrixCell;
  }

  lemma StoredTranspose(a: seq<seq<TqWords>>, k: nat)
    requires IsWordMatrix(a, k, k)
    ensures IsMatrix(StoredMatrix(a), k, k)
    ensures StoredMatrix(TransposeWords(a, k)) == Transpose(StoredMatrix(a), k)
  {
    hide StoredResidues;
    forall j | 0 <= j < k ensures StoredVector(TransposeWords(a, k)[j]) == Transpose(StoredMatrix(a), k)[j] {
      assert TransposeWords(a, k)[j] == ColumnWords(a, k, j);
    }
  }

  /** The public matrix over Z/q. */
  ghost function MatrixOf(p: Primitives, rho: Bytes32, k: nat): (a: seq<seq<RingPoly>>)
    requires 1 <= k <= 4 && ExpandTerminates(p, rho, k)
    ensures IsMatrix(a, k, k)
  {
    StoredMatrix(PublicMatrix(p, rho, k))
  }

  // ---- one element through the kernels ----

  /** `RqElement::ntt`. */
  method NttOf(backend: Backend, f: RqWords) returns (h: TqWords)
    ensures h == NttElement(f)
  {
    hide NttWords, Split;
    var c := new i16[256](i requires 0 <= i < 256 => f[i]);
    assert c[..] == f;
    Kernels.Ntt(backend, c);
    var halves := Kernels.SplitNatural(backend, c[..]);
    h := halves[..];
  }

  /** `TqElement::ntt_inverse`. */
  method NttInverseOf(backend: Backend, h: TqWords) returns (f: RqWords)
    ensures f == InverseElement(h)
  {
    hide InverseNttWords, Interleave;
    var c := Kernels.InterleaveHalves(backend, h);
    Kernels.NttInverse(backend, c);
    f := c[..];
  }

  method NttOfVector(backend: Backend, v: seq<RqWords>) returns (h: seq<TqWords>)
    ensures h == NttVector(v)
  {
    hide NttElement;
    h := [];
    while |h| < |v|
      invariant |h| <= |v| && forall i | 0 <= i < |h| :: h[i] == NttElement(v[i])
    {
      var x := NttOf(backend, v[|h|]);
      h := h + [x];
    }
  }

  /** The cached dot product. */
  method DotCached(backend: Backend, f: seq<TqWords>, g: Cached) returns (h: TqWords)
    requires |f| == |g.vector| && g.caches == CachesOf(g.vector)
    ensures h == DotWords(f, g.vector, CachesOf(g.vector))
  {
    var d := Kernels.AccumulatedDot(backend, f, g.vector, g.caches);
    h := d[..];
  }

  // ---- key generation ----

  ghost function SecretOf(p: Primitives, s: Params, sigma: Bytes32): (v: seq<RingPoly>)
    requires IsParams(s)
    ensures |v| == s.k
  {
    ResiduesV(NoiseVector(p, s.eta1, sigma, 0, s.k))
  }

  ghost function ErrorOf(p: Primitives, s: Params, sigma: Bytes32): (v: seq<RingPoly>)
    requires IsParams(s)
    ensures |v| == s.k
  {
    ResiduesV(NoiseVector(p, s.eta1, sigma, s.k, s.k))
  }

  lemma NoiseIsBounded(p: Primitives, eta: nat, seed: Bytes32, first: nat, n: nat)
    requires IsEta(eta)
    ensures AllBounded(NoiseVector(p, eta, seed, first, n), 3)
  {
    hide Noise;
    forall i | 0 <= i < n ensures Bounded(NoiseVector(p, eta, seed, first, n)[i], 3) {
      assert NoiseVector(p, eta, seed, first, n)[i] == Noise(p, eta, seed, WrapByte(first + i));
    }
  }

  /** `K-PKE.KeyGen`, Algorithm 13 with the seed supplied. */
  method KeyGen(backend: Backend, p: Primitives, s: Params, d: Bytes32) returns (dk: DecryptionKey, ek: EncryptionKey)
    requires IsParams(s) && ExpandTerminates(p, p.sha3_512(d + [s.k])[..32], s.k)
    ensures ValidEk(p, s, ek) && ValidDk(s, dk) && ek.rho == p.sha3_512(d + [s.k])[..32]
    ensures var sigma := p.sha3_512(d + [s.k])[32..];
            && StoredVector(dk.sHat.vector) == TransformedV(SecretOf(p, s, sigma))
            && StoredVector(ek.tHat) == PublicVector(MatrixOf(p, ek.rho, s.k), SecretOf(p, s, sigma), ErrorOf(p, s, sigma))
    ensures var sigma := p.sha3_512(d + [s.k])[32..];
            forall i | 0 <= i < s.k ::
              && SecretOf(p, s, sigma)[i] == Residues(SamplePolyCbd(s.eta1, Squeeze(p.shake256(sigma + [i]), 0, 64 * s.eta1)))
              && ErrorOf(p, s, sigma)[i] == Residues(SamplePolyCbd(s.eta1, Squeeze(p.shake256(sigma + [s.k + i]), 0, 64 * s.eta1)))
    ensures var sigma := p.sha3_512(d + [s.k])[32..];
            forall i | 0 <= i < s.k ::
              && StoredResidues(dk.sHat.vector[i]) == Transformed(SecretOf(p, s, sigma)[i])
              && StoredResidues(ek.tHat[i])
                 == AddP(Dot(StoredVector(PublicMatrix(p, ek.rho, s.k)[i]), StoredVector(dk.sHat.vector)), Transformed(ErrorOf(p, s, sigma)[i]))
  {
    hide SecretOf, ErrorOf, StoredVector, TransformedV, PublicVector, PublicMatrix, MatrixOf, ValidEk, ValidDk, ExpandTerminates;
    hide StoredResidues, Transformed, Dot, AddP, Squeeze, SamplePolyCbd, Residues;
    var (rho, sigma) := G(p, d + [s.k]);
    dk, ek := SampleKeys(backend, p, s, rho, sigma);
    KeyStreams(p, s, sigma);
    KeyComponents(p, s, dk, ek, sigma);
  }

  /** The key pair of a matrix seed and a noise seed. */
  method SampleKeys(backend: Backend, p: Primitives, s: Params, rho: Bytes32, sigma: Bytes32) returns (dk: DecryptionKey, ek: EncryptionKey)
    requires IsParams(s) && ExpandTerminates(p, rho, s.k)
    ensures ValidEk(p, s, ek) && ValidDk(s, dk) && ek.rho == rho
    ensures StoredVector(dk.sHat.vector) == TransformedV(SecretOf(p, s, sigma))
    ensures StoredVector(ek.tHat) == PublicVector(MatrixOf(p, ek.rho, s.k), SecretOf(p, s, sigma), ErrorOf(p, s, sigma))
  {
    hide Noise, NoiseVector, NttElement, PublicMatrix, TransposeWords, StoredVector, PublicVector, ExpandTerminates;
    hide DotWords, CachesOf, ToMontgomeryAll, AddWords, StoredMatrix, TransformedV, ResiduesV, NttVector, Bounded;
    var aHat := Expand(backend, p, rho, s.k);
    var noise := new CbdSampler(p, s.eta1, sigma, 0, 2 * s.k);
    var secret := noise.SampleVector(s.k);
    var error := noise.SampleVector(s.k);
    NoiseIsBounded(p, s.eta1, sigma, 0, s.k);
    NoiseIsBounded(p, s.eta1, sigma, s.k, s.k);
    MatrixIsCanonical(p, rho, s.k);
    var transformed := NttOfVector(backend, secret);
    var sHat := CacheVector(transformed);
    var tHat := PublicVectorWords(backend, aHat, sHat, error);
    NttVectorCorrect(secret, 3);
    PublicWordsCorrect(aHat, secret, error);
    AllBoundedWeakens(transformed, 1664, 3328);
    AllBoundedWeakens(tHat, 3404, 4993);
    dk := DecryptionKey(sHat);
    ek := EncryptionKey(tHat, rho, TransposeWords(aHat, s.k));
  }

  /** The secret is sampled from streams 0..K of sigma, the error from streams K..2K. */
  lemma KeyStreams(p: Primitives, s: Params, sigma: Bytes32)
    requires IsParams(s)
    ensures forall i | 0 <= i < s.k ::
              && SecretOf(p, s, sigma)[i] == Residues(SamplePolyCbd(s.eta1, Squeeze(p.shake256(sigma + [i]), 0, 64 * s.eta1)))
              && ErrorOf(p, s, sigma)[i] == Residues(SamplePolyCbd(s.eta1, Squeeze(p.shake256(sigma + [s.k + i]), 0, 64 * s.eta1)))
  {
    hide Noise, Residues, SamplePolyCbd, Squeeze;
    forall i | 0 <= i < s.k
      ensures SecretOf(p, s, sigma)[i] == Residues(SamplePolyCbd(s.eta1, Squeeze(p.shake256(sigma + [i]), 0, 64 * s.eta1)))
      ensures ErrorOf(p, s, sigma)[i] == Residues(SamplePolyCbd(s.eta1, Squeeze(p.shake256(sigma + [s.k + i]), 0, 64 * s.eta1)))
    {
      NoiseIs(p, s.eta1, sigma, i);
      NoiseIs(p, s.eta1, sigma, s.k + i);
    }
  }

  /** Component by component, the keys are NTT(s) and A s_hat + NTT(e). */
  lemma KeyComponents(p: Primitives, s: Params, dk: DecryptionKey, ek: EncryptionKey, sigma: Bytes32)
    requires IsParams(s) && ValidEk(p, s, ek) && ValidDk(s, dk)
    requires StoredVector(dk.sHat.vector) == TransformedV(SecretOf(p, s, sigma))
    requires StoredVector(ek.tHat) == PublicVector(MatrixOf(p, ek.rho, s.k), SecretOf(p, s, sigma), ErrorOf(p, s, sigma))
    ensures forall i | 0 <= i < s.k ::
              && StoredResidues(dk.sHat.vector[i]) == Transformed(SecretOf(p, s, sigma)[i])
              && StoredResidues(ek.tHat[i])
                 == AddP(Dot(StoredVector(PublicMatrix(p, ek.rho, s.k)[i]), StoredVector(dk.sHat.vector)), Transformed(ErrorOf(p, s, sigma)[i]))
  {
    hide SecretOf, ErrorOf, StoredResidues, Transformed, AddP, Dot, PublicMatrix, ExpandTerminates, TransposeWords;
    forall i | 0 <= i < s.k
      ensures StoredResidues(dk.sHat.vector[i]) == Transformed(SecretOf(p, s, sigma)[i])
      ensures StoredResidues(ek.tHat[i])
           == AddP(Dot(StoredVector(PublicMatrix(p, ek.rho, s.k)[i]), StoredVector(dk.sHat.vector)), Transformed(ErrorOf(p, s, sigma)[i]))
    {
      assert StoredVector(dk.sHat.vector)[i] == StoredResidues(dk.sHat.vector[i]);
      assert StoredVector(ek.tHat)[i] == StoredResidues(ek.tHat[i]);
    }
  }

  lemma AllBoundedWeakens(v: seq<TqWords>, small: int, large: int)
    requires AllBounded(v, small) && small <= large
    ensures AllBounded(v, large)
  {
  }

  /** t_hat = (A s_hat).to_montgomery() + e_hat. */
  method PublicVectorWords(backend: Backend, aHat: seq<seq<TqWords>>, sHat: Cached, error: seq<RqWords>) returns (t: seq<TqWords>)
    requires IsWordMatrix(aHat, |error|, |sHat.vector|) && sHat.caches == CachesOf(sHat.vector)
    ensures t == PublicWords(aHat, sHat.vector, error)
  {
    hide NttElement, DotWords, CachesOf, ToMontgomeryAll, AddWords;
    t := [];
    while |t| < |error|
      invariant |t| <= |error|
      invariant forall i | 0 <= i < |t| :: t[i] == PublicWord(aHat[i], sHat.vector, error[i])
    {
      var product := DotCached(backend, aHat[|t|], sHat);
      var eHat := NttOf(backend, error[|t|]);
      t := t + [AddWords(ToMontgomeryAll(product), eHat)];
    }
  }

  // ---- encryption ----

  /** The noise of an encryption: y, e1 and e2 from the randomness `r`. */
  ghost function NoiseY(p: Primitives, s: Params, r: Bytes32): (v: seq<RingPoly>)
    requires IsParams(s)
    ensures |v| == s.k
  {
    ResiduesV(NoiseVector(p, s.eta1, r, 0, s.k))
  }

  ghost function NoiseE1(p: Primitives, s: Params, r: Bytes32): (v: seq<RingPoly>)
    requires IsParams(s)
    ensures |v| == s.k
  {
    ResiduesV(NoiseVector(p, s.eta2, r, s.k, s.k))
  }

  ghost function NoiseE2(p: Primitives, s: Params, r: Bytes32): RingPoly
    requires IsParams(s)
  {
    Residues(Noise(p, s.eta2, r, WrapByte(2 * s.k)))
  }

  /** Algorithm 14 on the residues of a key. */
  ghost function EncryptionOf(p: Primitives, s: Params, tHat: seq<RingPoly>, rho: Bytes32, m: Bytes32, r: Bytes32): (c: seq<byte>)
    requires IsParams(s) && |tHat| == s.k && ExpandTerminates(p, rho, s.k)
    ensures |c| == CiphertextSize(s)
  {
    Encrypt(Transpose(MatrixOf(p, rho, s.k), s.k), tHat, NoiseY(p, s, r), NoiseE1(p, s, r), NoiseE2(p, s, r), m, s.du, s.dv)
  }

  lemma NoiseAt(p: Primitives, eta: nat, seed: Bytes32, b: byte)
    requires IsEta(eta)
    ensures Bounded(Noise(p, eta, seed, b), 3)
  {
    hide Noise;
  }

  /** `K-PKE.Encrypt`. */
  method EncryptMessage(backend: Backend, p: Primitives, s: Params, ek: EncryptionKey, m: Bytes32, r: Bytes32) returns (c: seq<byte>)
    requires IsParams(s) && ValidEk(p, s, ek)
    ensures c == EncryptionOf(p, s, StoredVector(ek.tHat), ek.rho, m, r)
  {
    hide Noise, NoiseVector, PublicMatrix, TransposeWords, StoredVector, ExpandTerminates, DotWords, CachesOf, AddWords;
    hide StoredMatrix, ResiduesV, NttVector, Bounded, Residues, InverseElement, DecodedWords, EncryptU, EncryptV, CiphertextBytes;
    var y, e1, e2 := SampleEncryptionNoise(p, s, r);
    var transformed := NttOfVector(backend, y);
    var yHat := CacheVector(transformed);
    var u := MatrixTimesUntransformed(backend, ek.aTranspose, yHat, e1);
    var mu := DecodeDecompress(backend, m, 1);
    var product := DotCached(backend, ek.tHat, yHat);
    var untransformed := NttInverseOf(backend, product);
    var v := AddWords(AddWords(untransformed, e2), mu);
    EncryptedCorrect(p, s, ek, r, y, e1, e2, mu);
    c := CiphertextFromUV(backend, u, v, s.du, s.dv);
  }

  /** y from streams 0..K at eta1; e1 and e2 from one run of K + 1 streams at eta2. */
  method SampleEncryptionNoise(p: Primitives, s: Params, r: Bytes32) returns (y: seq<RqWords>, e1: seq<RqWords>, e2: RqWords)
    requires IsParams(s)
    ensures y == NoiseVector(p, s.eta1, r, 0, s.k) && e1 == NoiseVector(p, s.eta2, r, s.k, s.k)
    ensures e2 == Noise(p, s.eta2, r, WrapByte(s.k + s.k))
  {
    hide Noise, NoiseVector, WrapByte, SamplePolyCbd, Squeeze;
    var ySampler := new CbdSampler(p, s.eta1, r, 0, s.k);
    y := ySampler.SampleVector(s.k);
    var noise := new CbdSampler(p, s.eta2, r, s.k, s.k + 1);
    e1 := noise.SampleVector(s.k);
    e2 := noise.SampleElement();
  }

  lemma ValidGivesMatrix(p: Primitives, s: Params, ek: EncryptionKey)
    requires IsParams(s) && ValidEk(p, s, ek)
    ensures ExpandTerminates(p, ek.rho, s.k) && |StoredVector(ek.tHat)| == s.k
  {
    hide ExpandTerminates;
  }

  /** Row i of A^T: entry j is A[j][i]. */
  ghost function MatrixColumn(p: Primitives, rho: Bytes32, k: nat, i: nat): (row: seq<RingPoly>)
    requires 1 <= k <= 4 && ExpandTerminates(p, rho, k) && i < k
    ensures |row| == k && forall j | 0 <= j < k :: row[j] == StoredResidues(PublicMatrix(p, rho, k)[j][i])
  {
    seq(k, j requires 0 <= j < k => StoredResidues(PublicMatrix(p, rho, k)[j][i]))
  }

  /** y is sampled from streams 0..K of r, e1 from K..2K, e2 from 2K. */
  lemma EncryptionStreams(p: Primitives, s: Params, r: Bytes32)
    requires IsParams(s)
    ensures forall i | 0 <= i < s.k ::
              && NoiseY(p, s, r)[i] == Residues(SamplePolyCbd(s.eta1, Squeeze(p.shake256(r + [i]), 0, 64 * s.eta1)))
              && NoiseE1(p, s, r)[i] == Residues(SamplePolyCbd(s.eta2, Squeeze(p.shake256(r + [s.k + i]), 0, 64 * s.eta2)))
    ensures NoiseE2(p, s, r) == Residues(SamplePolyCbd(s.eta2, Squeeze(p.shake256(r + [2 * s.k]), 0, 64 * s.eta2)))
  {
    hide Noise, Residues, SamplePolyCbd, Squeeze;
    NoiseIs(p, s.eta2, r, 2 * s.k);
    forall i | 0 <= i < s.k
      ensures NoiseY(p, s, r)[i] == Residues(SamplePolyCbd(s.eta1, Squeeze(p.shake256(r + [i]), 0, 64 * s.eta1)))
      ensures NoiseE1(p, s, r)[i] == Residues(SamplePolyCbd(s.eta2, Squeeze(p.shake256(r + [s.k + i]), 0, 64 * s.eta2)))
    {
      NoiseIs(p, s.eta1, r, i);
      NoiseIs(p, s.eta2, r, s.k + i);
    }
  }

  /** Each part of the ciphertext: u_i = NTT^-1 of row i of A^T with y, plus e1_i; then
      v = NTT^-1 of t with y, plus e2, plus the message. */
  lemma EncryptionParts(p: Primitives, s: Params, tHat: seq<RingPoly>, rho: Bytes32, m: Bytes32, r: Bytes32)
    requires IsParams(s) && |tHat| == s.k && ExpandTerminates(p, rho, s.k)
    ensures var c, size := EncryptionOf(p, s, tHat, rho, m, r), 32 * s.du;
      forall i | 0 <= i < s.k ::
        Slice(c, size * i, size * (i + 1))
        == EncodeCompressed(AddP(Untransformed(Dot(MatrixColumn(p, rho, s.k, i), TransformedV(NoiseY(p, s, r)))), NoiseE1(p, s, r)[i]), s.du)
    ensures Slice(EncryptionOf(p, s, tHat, rho, m, r), 32 * s.du * s.k, CiphertextSize(s))
         == EncodeCompressed(AddP(AddP(Untransformed(Dot(tHat, TransformedV(NoiseY(p, s, r)))), NoiseE2(p, s, r)), MessagePoly(m)), s.dv)
  {
    hide Untransformed, Dot, TransformedV, EncodeCompressed, AddP, NoiseY, NoiseE1, NoiseE2, MessagePoly, ExpandTerminates, CiphertextBytes;
    hide MatrixColumn, MatrixOf, Transpose;
    var at := Transpose(MatrixOf(p, rho, s.k), s.k);
    var u := EncryptU(at, NoiseY(p, s, r), NoiseE1(p, s, r));
    var v := EncryptV(tHat, NoiseY(p, s, r), NoiseE2(p, s, r), MessagePoly(m));
    CiphertextParts(u, v, s.du, s.dv);
    EncryptUAt(at, NoiseY(p, s, r), NoiseE1(p, s, r));
    forall i | 0 <= i < s.k ensures at[i] == MatrixColumn(p, rho, s.k, i) {
      ColumnIs(p, rho, s.k, i);
    }
  }

  lemma ColumnIs(p: Primitives, rho: Bytes32, k: nat, i: nat)
    requires 1 <= k <= 4 && ExpandTerminates(p, rho, k) && i < k
    ensures Transpose(MatrixOf(p, rho, k), k)[i] == MatrixColumn(p, rho, k, i)
  {
    hide StoredResidues, ExpandTerminates, PublicMatrix;
    var row, column := Transpose(MatrixOf(p, rho, k), k)[i], MatrixColumn(p, rho, k, i);
    forall j | 0 <= j < k ensures row[j] == column[j] {
      assert row[j] == MatrixOf(p, rho, k)[j][i];
      assert MatrixOf(p, rho, k)[j] == StoredVector(PublicMatrix(p, rho, k)[j]);
    }
  }

  lemma EncryptedCorrect(p: Primitives, s: Params, ek: EncryptionKey, r: Bytes32, y: seq<RqWords>, e1: seq<RqWords>, e2: RqWords, mu: RqWords)
    requires IsParams(s) && ValidEk(p, s, ek)
    requires y == NoiseVector(p, s.eta1, r, 0, s.k) && e1 == NoiseVector(p, s.eta2, r, s.k, s.k)
    requires e2 == Noise(p, s.eta2, r, WrapByte(s.k + s.k)) && Bounded(mu, 3328)
    ensures IsWordMatrix(ek.aTranspose, s.k, s.k)
    ensures ResiduesV(EncryptUWords(ek.aTranspose, NttVector(y), e1))
         == EncryptU(Transpose(MatrixOf(p, ek.rho, s.k), s.k), NoiseY(p, s, r), NoiseE1(p, s, r))
    ensures Residues(EncryptVWord(ek.tHat, NttVector(y), e2, mu))
         == EncryptV(StoredVector(ek.tHat), NoiseY(p, s, r), NoiseE2(p, s, r), Residues(mu))
  {
    hide Noise, NoiseVector, PublicMatrix, TransposeWords, StoredVector, ExpandTerminates, StoredMatrix, NttVector, Bounded;
    hide EncryptU, EncryptV, EncryptUWords, EncryptVWord, Residues, ResiduesV, Transpose, MatrixBounded, AllBounded;
    NoiseIsBounded(p, s.eta1, r, 0, s.k);
    NoiseIsBounded(p, s.eta2, r, s.k, s.k);
    NoiseAt(p, s.eta2, r, WrapByte(s.k + s.k));
    MatrixIsCanonical(p, ek.rho, s.k);
    StoredTranspose(PublicMatrix(p, ek.rho, s.k), s.k);
    EncryptUWordsCorrect(ek.aTranspose, y, e1);
    EncryptVWordCorrect(ek.tHat, y, e2, mu);
  }

  /** u = (A^T y_hat).ntt_inverse() + e1. */
  method MatrixTimesUntransformed(backend: Backend, at: seq<seq<TqWords>>, yHat: Cached, e1: seq<RqWords>) returns (u: seq<RqWords>)
    requires IsWordMatrix(at, |e1|, |yHat.vector|) && yHat.caches == CachesOf(yHat.vector)
    ensures u == EncryptUWords(at, yHat.vector, e1)
  {
    hide InverseElement, DotWords, CachesOf, AddWords;
    u := [];
    while |u| < |e1|
      invariant |u| <= |e1|
      invariant forall i | 0 <= i < |u| :: u[i] == EncryptUWord(at[i], yHat.vector, e1[i])
    {
      var product := DotCached(backend, at[|u|], yHat);
      var untransformed := NttInverseOf(backend, product);
      u := u + [AddWords(untransformed, e1[|u|])];
    }
  }

  /** `Ciphertext::from_uv`: fills a staging buffer block by block. */
  method CiphertextFromUV(backend: Backend, u: seq<RqWords>, v: RqWords, du: nat, dv: nat) returns (c: seq<byte>)
    requires 1 <= du <= 11 && 1 <= dv <= 11
    ensures c == CiphertextBytes(ResiduesV(u), Residues(v), du, dv)
    ensures var size := 32 * du;
      && (forall i | 0 <= i < |u| :: Slice(c, size * i, size * (i + 1)) == EncodeCompressed(Residues(u[i]), du))
      && Slice(c, size * |u|, |c|) == EncodeCompressed(Residues(v), dv)
  {
    hide Slice, CiphertextBytes, EncodeCompressed, Residues, ResiduesV;
    c := StagedCiphertext(backend, u, v, du, dv);
    PartsOfWords(u, v, du, dv);
  }

  lemma PartsOfWords(u: seq<RqWords>, v: RqWords, du: nat, dv: nat)
    ensures var c, size := CiphertextBytes(ResiduesV(u), Residues(v), du, dv), 32 * du;
      && (forall i | 0 <= i < |u| :: Slice(c, size * i, size * (i + 1)) == EncodeCompressed(Residues(u[i]), du))
      && Slice(c, size * |u|, |c|) == EncodeCompressed(Residues(v), dv)
  {
    hide Slice, CiphertextBytes, EncodeCompressed, Residues;
    CiphertextParts(ResiduesV(u), Residues(v), du, dv);
    var c, size := CiphertextBytes(ResiduesV(u), Residues(v), du, dv), 32 * du;
    forall i | 0 <= i < |u| ensures Slice(c, size * i, size * (i + 1)) == EncodeCompressed(Residues(u[i]), du) {
      assert ResiduesV(u)[i] == Residues(u[i]);
    }
  }

  /** The staging buffer, filled. */
  method StagedCiphertext(backend: Backend, u: seq<RqWords>, v: RqWords, du: nat, dv: nat) returns (c: seq<byte>)
    requires 1 <= du <= 11 && 1 <= dv <= 11
    ensures c == CiphertextBytes(ResiduesV(u), Residues(v), du, dv)
  {
    hide EncodeCompressed, Residues, EncodeVector, CiphertextBytes;
    EncodedConcat(ResiduesV(u), Residues(v), du, dv);
    var split := 32 * du * |u|;
    var staged := new byte[split + 32 * dv](_ => 0);
    StageVector(backend, staged, u, du);
    var packed := CompressEncode(backend, v, dv);
    CopyInto(staged, split, packed);
    c := staged[..];
    assert c == staged[..split] + staged[split..split + 32 * dv];
  }

  /** The chunk loop of `from_uv`. */
  method StageVector(backend: Backend, staged: array<byte>, u: seq<RqWords>, d: nat)
    requires 1 <= d <= 11 && 32 * d * |u| <= staged.Length
    modifies staged
    ensures staged[..32 * d * |u|] == EncodeVector(ResiduesV(u), d)
  {
    hide EncodeCompressed, Residues, Flatten;
    var size := 32 * d;
    ghost var blocks := EncodedBlocks(ResiduesV(u), d);
    var i: nat, at: nat := 0, 0;
    FlattenNothing(blocks, size);
    while i < |u|
      invariant i <= |u| && at == size * i <= size * |u|
      invariant staged[..at] == Flatten(blocks[..i], size)
    {
      var packed := CompressEncode(backend, u[i], d);
      BlocksFit(size, i, |u|);
      CopyInto(staged, at, packed);
      FlattenStep(blocks, size, i);
      assert staged[..at + size] == staged[..at] + staged[at..at + size];
      i, at := i + 1, at + size;
    }
    assert blocks[..|u|] == blocks;
  }

  lemma FlattenNothing(blocks: seq<seq<byte>>, size: nat)
    ensures Flatten(blocks[..0], size) == [] && size * 0 == 0
  {
  }

  lemma FlattenStep(blocks: seq<seq<byte>>, size: nat, i: nat)
    requires AllSized(blocks, size) && i < |blocks|
    ensures Flatten(blocks[..i + 1], size) == Flatten(blocks[..i], size) + blocks[i]
  {
    assert blocks[..i + 1][..i] == blocks[..i];
  }

  // ---- decryption ----

  /** `K-PKE.Decrypt`: Algorithm 15 on the residues of the key. */
  method DecryptMessage(backend: Backend, s: Params, dk: DecryptionKey, c: seq<byte>) returns (m: Bytes32)
    requires IsParams(s) && ValidDk(s, dk) && |c| == CiphertextSize(s)
    ensures m == Decrypt(StoredVector(dk.sHat.vector), c, s.du, s.dv)
  {
    hide DecodedWords, StoredVector, NttVector, DotWords, CachesOf, InverseElement, Residues, SubWords, Bounded, DecodeVector, DecryptW;
    hide Chunks, DecodeCompressed, EncodeCompressed, ResiduesV;
    var split := 32 * s.du * s.k;
    var u := DecodeVectorWords(backend, c[..split], s.k, s.du);
    var v := DecodeDecompress(backend, c[split..], s.dv);
    var uHat := NttOfVector(backend, u);
    var product := DotCached(backend, uHat, dk.sHat);
    var untransformed := NttInverseOf(backend, product);
    var w := SubWords(v, untransformed);
    DecryptWWordCorrect(u, v, dk.sHat.vector);
    m := CompressEncode(backend, w, 1);
  }

  /** `RqVector::decode_decompress`. */
  method DecodeVectorWords(backend: Backend, bytes: seq<byte>, k: nat, d: nat) returns (u: seq<RqWords>)
    requires 1 <= d <= 12 && |bytes| == 32 * d * k
    ensures |u| == k && ResiduesV(u) == DecodeVector(bytes, k, d) && AllBounded(u, 3328)
  {
    hide DecodedWords, Residues, Chunks, DecodeCompressed, Bounded;
    var chunks := Chunks(bytes, 32 * d, k);
    u := [];
    while |u| < k
      invariant |u| <= k
      invariant forall i | 0 <= i < |u| :: Residues(u[i]) == DecodeCompressed(chunks[i], d) && Bounded(u[i], 3328)
    {
      var f := DecodeDecompress(backend, chunks[|u|], d);
      u := u + [f];
    }
  }

  /** Decryption undoes encryption exactly when the noise of that encryption is
      tolerated: for every seed, message and randomness, any primitives, and any K. */
  lemma PkeRoundTrip(p: Primitives, s: Params, dk: DecryptionKey, ek: EncryptionKey, sigma: Bytes32, m: Bytes32, r: Bytes32)
    requires IsParams(s) && ValidEk(p, s, ek) && ValidDk(s, dk)
    requires StoredVector(dk.sHat.vector) == TransformedV(SecretOf(p, s, sigma))
    requires StoredVector(ek.tHat) == PublicVector(MatrixOf(p, ek.rho, s.k), SecretOf(p, s, sigma), ErrorOf(p, s, sigma))
    ensures Decrypt(StoredVector(dk.sHat.vector), EncryptionOf(p, s, StoredVector(ek.tHat), ek.rho, m, r), s.du, s.dv) == m
       <==> forall i | 0 <= i < 256 :: Tolerated(MessageBit(m, i), RunNoise(p, s, ek.rho, sigma, m, r)[i])
  {
    hide Decrypt, Encrypt, PublicVector, TransformedV, Tolerated, MessageBit, NoiseOf, StoredVector, ExpandTerminates, MatrixOf;
    hide SecretOf, ErrorOf, NoiseY, NoiseE1, NoiseE2, Transpose;
    DecryptsIff(MatrixOf(p, ek.rho, s.k), SecretOf(p, s, sigma), ErrorOf(p, s, sigma),
                NoiseY(p, s, r), NoiseE1(p, s, r), NoiseE2(p, s, r), m, s.du, s.dv);
  }

  /** The noise e^T y + e2 + c_v - s^T (e1 + c_u) of one encryption. */
  ghost function RunNoise(p: Primitives, s: Params, rho: Bytes32, sigma: Bytes32, m: Bytes32, r: Bytes32): RingPoly
    requires IsParams(s) && ExpandTerminates(p, rho, s.k)
  {
    NoiseOf(MatrixOf(p, rho, s.k), SecretOf(p, s, sigma), ErrorOf(p, s, sigma),
            NoiseY(p, s, r), NoiseE1(p, s, r), NoiseE2(p, s, r), m, s.du, s.dv)
  }

  /** The noise, spelled out: c_u and c_v are what compression adds to u and v. */
  lemma RunNoiseIs(p: Primitives, s: Params, rho: Bytes32, sigma: Bytes32, m: Bytes32, r: Bytes32,
                   secret: seq<RingPoly>, error: seq<RingPoly>, u: seq<RingPoly>, v: RingPoly, f: seq<RingPoly>)
    requires IsParams(s) && ExpandTerminates(p, rho, s.k) && |u| == |f| == s.k
    requires secret == SecretOf(p, s, sigma) && error == ErrorOf(p, s, sigma)
    requires u == EncryptU(Transpose(MatrixOf(p, rho, s.k), s.k), NoiseY(p, s, r), NoiseE1(p, s, r))
    requires v == EncryptV(PublicVector(MatrixOf(p, rho, s.k), secret, error), NoiseY(p, s, r), NoiseE2(p, s, r), MessagePoly(m))
    requires forall i | 0 <= i < s.k :: f[i] == AddP(NoiseE1(p, s, r)[i], SubP(Rounded(u[i], s.du), u[i]))
    ensures RunNoise(p, s, rho, sigma, m, r)
         == SubP(AddP(AddP(InnerProduct(error, NoiseY(p, s, r)), NoiseE2(p, s, r)), SubP(Rounded(v, s.dv), v)), InnerProduct(secret, f))
  {
    hide AddP, SubP, Rounded, InnerProduct, EncryptU, EncryptV, PublicVector, MatrixOf, Transpose, SecretOf, ErrorOf, NoiseY, NoiseE1, NoiseE2;
    assert AddV(NoiseE1(p, s, r), ErrorV(u, s.du)) == f;
  }

  // ---- ciphertext comparison ----

  /** `ct_eq`: XOR-folds two byte strings word by word; the fold is zero exactly when
      the strings are equal. */
  method CtEq(a: seq<byte>, b: seq<byte>) returns (equal: bool)
    requires |a| == |b| && |a| % 8 == 0
    ensures equal <==> a == b
  {
    hide Or, Xor, Value;
    var acc: nat, i: nat := 0, 0;
    while i < |a| / 8
      invariant i <= |a| / 8
      invariant acc == 0 <==> a[..8 * i] == b[..8 * i]
    {
      var x, y := Block(a, 8, i), Block(b, 8, i);
      WordsEqual(x, y);
      OrZero(acc, Xor(Value(x, 8), Value(y, 8)));
      PrefixesEqual(a, b, i);
      acc := Or(acc, Xor(Value(x, 8), Value(y, 8)));
      i := i + 1;
    }
    assert a[..8 * i] == a && b[..8 * i] == b;
    equal := acc == 0;
  }

  lemma WordsEqual(x: seq<byte>, y: seq<byte>)
    requires |x| == |y|
    ensures Xor(Value(x, 8), Value(y, 8)) == 0 <==> x == y
  {
    hide Value;
    assert Pow2(8) == 256;
    DigitsOfValue(x, 8);
    DigitsOfValue(y, 8);
  }

  lemma PrefixesEqual(a: seq<byte>, b: seq<byte>, i: nat)
    requires |a| == |b| && 8 * (i + 1) <= |a|
    ensures a[..8 * (i + 1)] == b[..8 * (i + 1)] <==> a[..8 * i] == b[..8 * i] && Block(a, 8, i) == Block(b, 8, i)
  {
    assert a[..8 * (i + 1)] == a[..8 * i] + Block(a, 8, i);
    assert b[..8 * (i + 1)] == b[..8 * i] + Block(b, 8, i);
  }
}
