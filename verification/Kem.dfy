/** ML-KEM over K-PKE (`src/lib.rs`): encapsulation, decapsulation with implicit
    rejection, and the key parsers of sections 7.2 and 7.3 of FIPS 203. */
module Kem {
  import opened Words
  import opened Polynomials
  import opened Functions
  import opened BaseMul
  import opened Encoding
  import opened PkeSpec
  import opened TqAlgebra
  import opened MatrixSampling
  import opened Pke
  import opened Keys
  import opened Rejection
  import opened Blocks

  datatype Error =
    | InvalidEncapsulationKeyLength
    | EncapsulationKeyModulusCheckFailed
    | InvalidDecapsulationKeyLength
    | DecapsulationKeyHashMismatch
    | InvalidCiphertextLength

  datatype Result<T> = Ok(value: T) | Err(error: Error)

  datatype EncapsulationKey = EncapsulationKey(ekPke: EncryptionKey, hEk: Bytes32)

  datatype DecapsulationKey = DecapsulationKey(dkPke: DecryptionKey, ek: EncapsulationKey, hEk: Bytes32, z: Bytes32)

  /** H(ek) of a key's serialization. */
  function KeyHash(p: Primitives, ek: EncryptionKey): Bytes32 {
    H(p, EncryptionKeyBytes(StoredVector(ek.tHat), ek.rho))
  }

  ghost predicate ValidEncapsulationKey(p: Primitives, s: Params, ek: EncapsulationKey)
    requires IsParams(s)
  {
    ValidEk(p, s, ek.ekPke) && ek.hEk == KeyHash(p, ek.ekPke)
  }

  ghost predicate ValidDecapsulationKey(p: Primitives, s: Params, dk: DecapsulationKey)
    requires IsParams(s)
  {
    ValidDk(s, dk.dkPke) && ValidEncapsulationKey(p, s, dk.ek) && dk.hEk == dk.ek.hEk
  }

  /** The constructor: caches the hash of the serialized key. */
  method NewEncapsulationKey(backend: Backend, p: Primitives, s: Params, ekPke: EncryptionKey) returns (ek: EncapsulationKey)
    requires IsParams(s) && ValidEk(p, s, ekPke)
    ensures ValidEncapsulationKey(p, s, ek) && ek.ekPke == ekPke
    ensures ek.hEk == p.sha3_256(EncryptionKeyBytes(StoredVector(ekPke.tHat), ekPke.rho))
  {
    hide ValidEk;
    var bytes := EncryptionKeyToBytes(backend, ekPke);
    ek := EncapsulationKey(ekPke, H(p, bytes));
  }

  // ---- key generation ----

  /** `generate_derand`: the seed is d, then z. */
  method GenerateDerand(backend: Backend, p: Primitives, s: Params, seed: Bytes64) returns (dk: DecapsulationKey)
    requires IsParams(s) && ExpandTerminates(p, p.sha3_512(seed[..32] + [s.k])[..32], s.k)
    ensures ValidDecapsulationKey(p, s, dk) && dk.z == seed[32..]
    ensures dk.ek.ekPke.rho == p.sha3_512(seed[..32] + [s.k])[..32]
    ensures GeneratedWith(p, s, dk, p.sha3_512(seed[..32] + [s.k])[32..])
  {
    hide ValidEk, ValidDk, StoredVector, TransformedV, PublicVector, MatrixOf, SecretOf, ErrorOf, ExpandTerminates;
    var d: Bytes32, z: Bytes32 := seed[..32], seed[32..];
    var dkPke, ekPke := KeyGen(backend, p, s, d);
    ValidGivesMatrix(p, s, ekPke);
    var ek := NewEncapsulationKey(backend, p, s, ekPke);
    dk := DecapsulationKey(dkPke, ek, ek.hEk, z);
  }

  /** The key pair stands for the secret and error sampled from `sigma`. */
  ghost predicate GeneratedWith(p: Primitives, s: Params, dk: DecapsulationKey, sigma: Bytes32)
    requires IsParams(s) && ExpandTerminates(p, dk.ek.ekPke.rho, s.k)
  {
    && StoredVector(dk.dkPke.sHat.vector) == TransformedV(SecretOf(p, s, sigma))
    && StoredVector(dk.ek.ekPke.tHat)
       == PublicVector(MatrixOf(p, dk.ek.ekPke.rho, s.k), SecretOf(p, s, sigma), ErrorOf(p, s, sigma))
  }

  // ---- encapsulation and decapsulation ----

  /** `encapsulate_derand`: (K, r) from G(m, H(ek)), and the encryption of m under r. */
  method EncapsulateDerand(backend: Backend, p: Primitives, s: Params, ek: EncapsulationKey, m: Bytes32) returns (secret: Bytes32, c: seq<byte>)
    requires IsParams(s) && ValidEncapsulationKey(p, s, ek)
    ensures ExpandTerminates(p, ek.ekPke.rho, s.k) && |StoredVector(ek.ekPke.tHat)| == s.k
    ensures secret == p.sha3_512(m + ek.hEk)[..32]
    ensures c == EncryptionOf(p, s, StoredVector(ek.ekPke.tHat), ek.ekPke.rho, m, p.sha3_512(m + ek.hEk)[32..])
  {
    hide ValidEk, StoredVector, EncryptionOf, ExpandTerminates;
    ValidGivesMatrix(p, s, ek.ekPke);
    var (k, r) := G(p, m + ek.hEk);
    c := EncryptMessage(backend, p, s, ek.ekPke, m, r);
    secret := k;
  }

  /** What decapsulation depends on: residues, seed, hash and rejection seed. */
  ghost function DecapsulationOf(p: Primitives, s: Params, sHat: seq<RingPoly>, tHat: seq<RingPoly>, rho: Bytes32,
                                 hEk: Bytes32, z: Bytes32, c: seq<byte>): Bytes32
    requires IsParams(s) && |sHat| == |tHat| == s.k && ExpandTerminates(p, rho, s.k) && |c| == CiphertextSize(s)
  {
    var m: Bytes32 := Decrypt(sHat, c, s.du, s.dv);
    var (k, r) := G(p, m + hEk);
    if EncryptionOf(p, s, tHat, rho, m, r) == c then k else J(p, z, c)
  }

  /** The same, read off a key. */
  ghost function DecapsulationBy(p: Primitives, s: Params, dk: DecapsulationKey, c: seq<byte>): Bytes32
    requires IsParams(s) && ValidDecapsulationKey(p, s, dk) && |c| == CiphertextSize(s)
  {
    ValidGivesMatrix(p, s, dk.ek.ekPke);
    DecapsulationOf(p, s, StoredVector(dk.dkPke.sHat.vector), StoredVector(dk.ek.ekPke.tHat), dk.ek.ekPke.rho, dk.hEk, dk.z, c)
  }

  /** `decapsulate`: K' when re-encryption reproduces the ciphertext byte for byte, and
      otherwise 32 bytes of SHAKE256 of z and the ciphertext. */
  method Decapsulate(backend: Backend, p: Primitives, s: Params, dk: DecapsulationKey, c: seq<byte>) returns (secret: Bytes32)
    requires IsParams(s) && ValidDecapsulationKey(p, s, dk) && |c| == CiphertextSize(s)
    ensures secret == DecapsulationBy(p, s, dk, c)
    ensures ExpandTerminates(p, dk.ek.ekPke.rho, s.k) && |StoredVector(dk.ek.ekPke.tHat)| == |StoredVector(dk.dkPke.sHat.vector)| == s.k
    ensures var m: Bytes32 := Decrypt(StoredVector(dk.dkPke.sHat.vector), c, s.du, s.dv);
            var digest := p.sha3_512(m + dk.hEk);
            var reencrypted := EncryptionOf(p, s, StoredVector(dk.ek.ekPke.tHat), dk.ek.ekPke.rho, m, digest[32..]);
            && (reencrypted == c ==> secret == digest[..32])
            && (reencrypted != c ==> secret == Squeeze(p.shake256(dk.z + c), 0, 32))
  {
    hide ValidEk, ValidDk, StoredVector, EncryptionOf, ExpandTerminates, Decrypt, DecapsulationBy, Squeeze;
    DecapsulationCases(p, s, dk, c);
    var m := DecryptMessage(backend, s, dk.dkPke, c);
    var (kPrime, r) := G(p, m + dk.hEk);
    var kBar := J(p, dk.z, c);
    var cPrime := EncryptMessage(backend, p, s, dk.ek.ekPke, m, r);
    CiphertextIsWords(s);
    var matches := CtEq(c, cPrime);
    secret := ConditionalSelect(kBar, kPrime, matches);
  }

  /** What decapsulation answers, accepting and rejecting. */
  lemma DecapsulationCases(p: Primitives, s: Params, dk: DecapsulationKey, c: seq<byte>)
    requires IsParams(s) && ValidDecapsulationKey(p, s, dk) && |c| == CiphertextSize(s)
    ensures ExpandTerminates(p, dk.ek.ekPke.rho, s.k) && |StoredVector(dk.ek.ekPke.tHat)| == |StoredVector(dk.dkPke.sHat.vector)| == s.k
    ensures var m: Bytes32 := Decrypt(StoredVector(dk.dkPke.sHat.vector), c, s.du, s.dv);
            var digest := p.sha3_512(m + dk.hEk);
            var reencrypted := EncryptionOf(p, s, StoredVector(dk.ek.ekPke.tHat), dk.ek.ekPke.rho, m, digest[32..]);
            && (reencrypted == c ==> DecapsulationBy(p, s, dk, c) == digest[..32])
            && (reencrypted != c ==> DecapsulationBy(p, s, dk, c) == Squeeze(p.shake256(dk.z + c), 0, 32))
  {
    ValidGivesMatrix(p, s, dk.ek.ekPke);
    hide ValidEk, StoredVector, EncryptionOf, ExpandTerminates, Decrypt, Squeeze;
  }

  lemma CiphertextIsWords(s: Params)
    ensures CiphertextSize(s) % 8 == 0
  {
    assert CiphertextSize(s) == 8 * (4 * (s.du * s.k) + 4 * s.dv) by {
      assert 32 * s.du * s.k == 32 * (s.du * s.k);
    }
  }

  /** The byte-wise selection loop of `decapsulate`. */
  method ConditionalSelect(kBar: Bytes32, kPrime: Bytes32, matches: bool) returns (secret: Bytes32)
    ensures secret == if matches then kPrime else kBar
  {
    var out := new byte[32](_ => 0);
    var i: nat := 0;
    while i < 32
      invariant i <= 32
      invariant forall j | 0 <= j < i :: out[j] == if matches then kPrime[j] else kBar[j]
    {
      out[i] := if matches then kPrime[i] else kBar[i];
      i := i + 1;
    }
    secret := out[..];
  }

  /** Decapsulating an honest encapsulation gives the encapsulated secret whenever the
      noise of that encryption is tolerated: for every seed, message, parameter choice
      and any behaviour of the hash functions. */
  lemma DecapsulationAgrees(p: Primitives, s: Params, dk: DecapsulationKey, sigma: Bytes32, m: Bytes32)
    requires IsParams(s) && ValidDecapsulationKey(p, s, dk)
    requires ExpandTerminates(p, dk.ek.ekPke.rho, s.k) && |StoredVector(dk.ek.ekPke.tHat)| == s.k
    requires GeneratedWith(p, s, dk, sigma)
    requires var r := G(p, m + dk.hEk).1;
             forall i | 0 <= i < 256 :: Tolerated(MessageBit(m, i), RunNoise(p, s, dk.ek.ekPke.rho, sigma, m, r)[i])
    ensures var (k, r) := G(p, m + dk.hEk);
            DecapsulationBy(p, s, dk, EncryptionOf(p, s, StoredVector(dk.ek.ekPke.tHat), dk.ek.ekPke.rho, m, r)) == k
  {
    hide G, J, StoredVector, EncryptionOf, ExpandTerminates, Decrypt, Tolerated, RunNoise, MessageBit, TransformedV, PublicVector;
    PkeRoundTrip(p, s, dk.dkPke, dk.ek.ekPke, sigma, m, G(p, m + dk.hEk).1);
  }

  /** The same agreement from what decryption recovers, for any valid key. */
  lemma DecapsulationAgreesWhenDecrypted(p: Primitives, s: Params, dk: DecapsulationKey, m: Bytes32)
    requires IsParams(s) && ValidDecapsulationKey(p, s, dk)
    requires ExpandTerminates(p, dk.ek.ekPke.rho, s.k) && |StoredVector(dk.ek.ekPke.tHat)| == s.k
    requires |StoredVector(dk.dkPke.sHat.vector)| == s.k
    requires var c := EncryptionOf(p, s, StoredVector(dk.ek.ekPke.tHat), dk.ek.ekPke.rho, m, G(p, m + dk.hEk).1);
             Decrypt(StoredVector(dk.dkPke.sHat.vector), c, s.du, s.dv) == m
    ensures var (k, r) := G(p, m + dk.hEk);
            DecapsulationBy(p, s, dk, EncryptionOf(p, s, StoredVector(dk.ek.ekPke.tHat), dk.ek.ekPke.rho, m, r)) == k
  {
    hide G, J, StoredVector, EncryptionOf, ExpandTerminates, Decrypt;
  }

  // ---- parsing ----

  /** An encapsulation key's bytes are acceptable: right length, canonical fields. */
  predicate AcceptableEncapsulationKey(s: Params, bytes: seq<byte>) {
    |bytes| == 384 * s.k + 32 && AllFieldsBelowQ(bytes[..384 * s.k], s.k)
  }

  /** `EncapsulationKey::try_from`: accepts exactly the strings of the right length
      whose fields are all below q, and an accepted key re-serializes unchanged. */
  method ParseEncapsulationKey(backend: Backend, p: Primitives, s: Params, bytes: seq<byte>) returns (r: Result<EncapsulationKey>)
    requires IsParams(s) && (|bytes| == 384 * s.k + 32 ==> ExpandTerminates(p, bytes[384 * s.k..], s.k))
    ensures r.Ok? <==> AcceptableEncapsulationKey(s, bytes)
    ensures r.Err? ==> r.error == if |bytes| != 384 * s.k + 32 then InvalidEncapsulationKeyLength else EncapsulationKeyModulusCheckFailed
    ensures r.Ok? ==> ValidEncapsulationKey(p, s, r.value) && r.value.hEk == p.sha3_256(bytes)
    ensures r.Ok? ==> EncryptionKeyBytes(StoredVector(r.value.ekPke.tHat), r.value.ekPke.rho) == bytes
  {
    hide ValidEk, StoredVector, ExpandTerminates, DecodedKey, KeyBytes, AllFieldsBelowQ;
    if |bytes| != 384 * s.k + 32 {
      return Err(InvalidEncapsulationKeyLength);
    }
    var ekPke := EncryptionKeyFromBytes(backend, p, s, bytes);
    var reencoded := EncryptionKeyToBytes(backend, ekPke);
    ReencodedMatches(bytes, s.k);
    if reencoded != bytes {
      return Err(EncapsulationKeyModulusCheckFailed);
    }
    var ek := NewEncapsulationKey(backend, p, s, ekPke);
    r := Ok(ek);
  }

  lemma ReencodedMatches(bytes: seq<byte>, k: nat)
    requires |bytes| == 384 * k + 32
    ensures EncryptionKeyBytes(DecodedKey(bytes[..384 * k], k), bytes[384 * k..]) == bytes
       <==> AllFieldsBelowQ(bytes[..384 * k], k)
  {
    hide KeyBytes, DecodedKey, AllFieldsBelowQ;
    KeyBytesOfDecoded(bytes[..384 * k], k);
    var t := KeyBytes(DecodedKey(bytes[..384 * k], k));
    assert bytes == bytes[..384 * k] + bytes[384 * k..];
    if t + bytes[384 * k..] == bytes {
      assert (t + bytes[384 * k..])[..384 * k] == t;
    }
  }

  /** The four parts of a decapsulation key's bytes. */
  function DkPart(s: Params, bytes: seq<byte>): (part: seq<byte>)
    requires |bytes| == 768 * s.k + 96
    ensures |part| == 384 * s.k
  {
    bytes[..384 * s.k]
  }

  function EkPart(s: Params, bytes: seq<byte>): (part: seq<byte>)
    requires |bytes| == 768 * s.k + 96
    ensures |part| == 384 * s.k + 32
  {
    bytes[384 * s.k..768 * s.k + 32]
  }

  function HashPart(s: Params, bytes: seq<byte>): Bytes32
    requires |bytes| == 768 * s.k + 96
  {
    bytes[768 * s.k + 32..768 * s.k + 64]
  }

  function RejectionPart(s: Params, bytes: seq<byte>): Bytes32
    requires |bytes| == 768 * s.k + 96
  {
    bytes[768 * s.k + 64..]
  }

  /** The embedded encapsulation key with every coefficient reduced: what is hashed. */
  function NormalizedEk(s: Params, bytes: seq<byte>): seq<byte>
    requires |bytes| == 768 * s.k + 96
  {
    var ek := EkPart(s, bytes);
    EncryptionKeyBytes(DecodedKey(ek[..384 * s.k], s.k), ek[384 * s.k..])
  }

  // ---- the parser's hash check and the documented one ----

  /** The parser hashes the embedded key as it stands exactly when its fields are
      canonical. */
  lemma NormalizedIsRawIff(s: Params, bytes: seq<byte>)
    requires |bytes| == 768 * s.k + 96
    ensures NormalizedEk(s, bytes) == EkPart(s, bytes) <==> AllFieldsBelowQ(EkPart(s, bytes)[..384 * s.k], s.k)
  {
    hide AllFieldsBelowQ, EkPart;
    ReencodedMatches(EkPart(s, bytes), s.k);
  }

  /** The check of section 7.3 of FIPS 203: the stored hash is that of the embedded bytes. */
  predicate RawHashCheck(p: Primitives, s: Params, bytes: seq<byte>)
    requires |bytes| == 768 * s.k + 96
  {
    HashPart(s, bytes) == H(p, EkPart(s, bytes))
  }

  /** The check the parser makes. */
  predicate ParserHashCheck(p: Primitives, s: Params, bytes: seq<byte>)
    requires |bytes| == 768 * s.k + 96
  {
    HashPart(s, bytes) == H(p, NormalizedEk(s, bytes))
  }

  /** The two checks agree whatever the hash exactly when the embedded key's fields are
      canonical. */
  lemma HashChecksAgreeIff(s: Params, bytes: seq<byte>)
    requires |bytes| == 768 * s.k + 96
    ensures (forall p: Primitives :: ParserHashCheck(p, s, bytes) <==> RawHashCheck(p, s, bytes))
       <==> AllFieldsBelowQ(EkPart(s, bytes)[..384 * s.k], s.k)
  {
    NormalizedIsRawIff(s, bytes);
    hide NormalizedEk, EkPart, HashPart, AllFieldsBelowQ;
    if NormalizedEk(s, bytes) != EkPart(s, bytes) {
      var p := SeparatingHash(s, bytes);
      assert ParserHashCheck(p, s, bytes) && !RawHashCheck(p, s, bytes);
    }
  }

  /** Primitives whose hash of `preimage` is `digest` and of nothing else; the streams
      are zeros. */
  function Separating(preimage: seq<byte>, digest: Bytes32): (p: Primitives)
    ensures forall x :: H(p, x) == digest <==> x == preimage
    ensures forall x :: p.shake128(x) == ZEROS
  {
    var other: Bytes32 := digest[0 := 255 - digest[0]];
    var none: Bytes64 := seq(64, i => 0);
    assert other[0] != digest[0];
    Primitives(x => if x == preimage then digest else other, x => none, x => ZEROS, x => ZEROS)
  }

  /** A serialized decapsulation key, all zero but for the embedded key's first
      coefficient field, which holds q. */
  function HighFieldKey(s: Params): (bytes: seq<byte>)
    ensures |bytes| == 768 * s.k + 96
  {
    seq(768 * s.k + 96, i requires 0 <= i < 768 * s.k + 96 =>
      if i == 384 * s.k then 0x01 else if i == 384 * s.k + 1 then 0x0D else 0)
  }

  /** Primitives on which the two checks differ, if they can. */
  function SeparatingHash(s: Params, bytes: seq<byte>): Primitives
    requires |bytes| == 768 * s.k + 96
  {
    Separating(NormalizedEk(s, bytes), HashPart(s, bytes))
  }

  /** The seed of the embedded key. */
  function SeedPart(s: Params, bytes: seq<byte>): Bytes32
    requires |bytes| == 768 * s.k + 96
  {
    EkPart(s, bytes)[384 * s.k..]
  }

  /** On any key with a non-canonical field the two checks differ, under primitives that
      let the matrix expansion terminate. */
  lemma NonCanonicalIsAccepted(s: Params, bytes: seq<byte>)
    requires IsParams(s) && |bytes| == 768 * s.k + 96 && !AllFieldsBelowQ(EkPart(s, bytes)[..384 * s.k], s.k)
    ensures ExpandTerminates(SeparatingHash(s, bytes), SeedPart(s, bytes), s.k)
    ensures ParserHashCheck(SeparatingHash(s, bytes), s, bytes) && !RawHashCheck(SeparatingHash(s, bytes), s, bytes)
  {
    hide NormalizedEk, EkPart, HashPart, SeedPart, AllFieldsBelowQ, Separating, H, ExpandTerminates;
    NormalizedIsRawIff(s, bytes);
    ZerosTerminate(SeparatingHash(s, bytes), SeedPart(s, bytes), s.k);
  }

  /** Such a key, for every parameter set: the parser accepts it although its stored hash
      is not the hash of the embedded bytes. */
  lemma HighFieldIsAccepted(s: Params)
    requires IsParams(s)
    ensures var bytes := HighFieldKey(s); var p := SeparatingHash(s, bytes);
      ExpandTerminates(p, SeedPart(s, bytes), s.k) && ParserHashCheck(p, s, bytes) && !RawHashCheck(p, s, bytes)
  {
    hide HighFieldKey, AllFieldsBelowQ, SeparatingHash, SeedPart, ExpandTerminates, ParserHashCheck, RawHashCheck;
    HighFieldNotCanonical(s);
    NonCanonicalIsAccepted(s, HighFieldKey(s));
  }

  lemma HighFieldNotCanonical(s: Params)
    requires IsParams(s)
    ensures !AllFieldsBelowQ(EkPart(s, HighFieldKey(s))[..384 * s.k], s.k)
  {
    var t := EkPart(s, HighFieldKey(s))[..384 * s.k];
    assert t[0] == 0x01 && t[1] == 0x0D;
    hide HighFieldKey, EkPart;
    var block := Block(t, 384, 0);
    assert block[0] == 0x01 && block[1] == 0x0D;
    FirstField(block, 0x01, 0x0D);
    hide FieldsBelowQ;
    assert Chunks(t, 384, s.k)[0] == block;
  }

  lemma ZerosTerminate(p: Primitives, rho: Bytes32, k: nat)
    requires 1 <= k <= 4 && forall x :: p.shake128(x) == ZEROS
    ensures ExpandTerminates(p, rho, k)
  {
    hide Fills;
    ZerosFill();
  }

  /** What a parsed decapsulation key is, in terms of the bytes it came from. */
  ghost predicate ParsedFrom(p: Primitives, s: Params, dk: DecapsulationKey, bytes: seq<byte>)
    requires IsParams(s)
  {
    && |bytes| == 768 * s.k + 96 && ValidDecapsulationKey(p, s, dk)
    && StoredVector(dk.dkPke.sHat.vector) == DecodedKey(DkPart(s, bytes), s.k)
    && StoredVector(dk.ek.ekPke.tHat) == DecodedKey(EkPart(s, bytes)[..384 * s.k], s.k)
    && dk.ek.ekPke.rho == EkPart(s, bytes)[384 * s.k..]
    && dk.hEk == HashPart(s, bytes) && dk.z == RejectionPart(s, bytes)
  }

  /** `DecapsulationKey::try_from`: accepts exactly when the length is right and the
      stored hash is the hash of the coefficient-normalized embedded key. */
  method ParseDecapsulationKey(backend: Backend, p: Primitives, s: Params, bytes: seq<byte>) returns (r: Result<DecapsulationKey>)
    requires IsParams(s)
    requires |bytes| == 768 * s.k + 96 ==> ExpandTerminates(p, SeedPart(s, bytes), s.k)
    ensures r.Ok? <==> |bytes| == 768 * s.k + 96 && ParserHashCheck(p, s, bytes)
    ensures r.Err? ==> r.error == if |bytes| != 768 * s.k + 96 then InvalidDecapsulationKeyLength else DecapsulationKeyHashMismatch
    ensures r.Ok? ==> ParsedFrom(p, s, r.value, bytes)
    ensures r.Ok? ==>
      var n := 384 * s.k;
      && bytes[2 * n + 32..2 * n + 64] == r.value.hEk == p.sha3_256(EncryptionKeyBytes(DecodedKey(bytes[n..2 * n], s.k), bytes[2 * n..2 * n + 32]))
      && r.value.z == bytes[2 * n + 64..] && r.value.ek.ekPke.rho == bytes[2 * n..2 * n + 32]
      && StoredVector(r.value.dkPke.sHat.vector) == DecodedKey(bytes[..n], s.k)
      && StoredVector(r.value.ek.ekPke.tHat) == DecodedKey(bytes[n..2 * n], s.k)
  {
    hide ValidEk, ValidDk, StoredVector, ExpandTerminates, DecodedKey, KeyBytes, H;
    if |bytes| != 768 * s.k + 96 {
      return Err(InvalidDecapsulationKeyLength);
    }
    var dkPke := DecryptionKeyFromBytes(backend, s, DkPart(s, bytes));
    var ekPke := EncryptionKeyFromBytes(backend, p, s, EkPart(s, bytes));
    var ek := NewEncapsulationKey(backend, p, s, ekPke);
    var hEk := HashPart(s, bytes);
    if ek.hEk != hEk {
      return Err(DecapsulationKeyHashMismatch);
    }
    var dk := DecapsulationKey(dkPke, ek, hEk, RejectionPart(s, bytes));
    ParsedParts(p, s, dk, bytes);
    r := Ok(dk);
  }

  /** Where in the bytes each part of a parsed key comes from. */
  lemma ParsedParts(p: Primitives, s: Params, dk: DecapsulationKey, bytes: seq<byte>)
    requires IsParams(s) && ParsedFrom(p, s, dk, bytes) && ParserHashCheck(p, s, bytes)
    ensures var n := 384 * s.k;
      && bytes[2 * n + 32..2 * n + 64] == dk.hEk == p.sha3_256(EncryptionKeyBytes(DecodedKey(bytes[n..2 * n], s.k), bytes[2 * n..2 * n + 32]))
      && dk.z == bytes[2 * n + 64..] && dk.ek.ekPke.rho == bytes[2 * n..2 * n + 32]
      && StoredVector(dk.dkPke.sHat.vector) == DecodedKey(bytes[..n], s.k)
      && StoredVector(dk.ek.ekPke.tHat) == DecodedKey(bytes[n..2 * n], s.k)
  {
    hide StoredVector, DecodedKey, EncryptionKeyBytes, ValidEk, ValidDk;
    var n := 384 * s.k;
    assert EkPart(s, bytes)[..n] == bytes[n..2 * n] && EkPart(s, bytes)[n..] == bytes[2 * n..2 * n + 32];
  }

  /** A decapsulation key's serialization. */
  function DecapsulationKeyBytes(dk: DecapsulationKey): seq<byte> {
    KeyBytes(StoredVector(dk.dkPke.sHat.vector)) + EncryptionKeyBytes(StoredVector(dk.ek.ekPke.tHat), dk.ek.ekPke.rho) + dk.hEk + dk.z
  }

  /** `DecapsulationKey::to_bytes`. */
  method DecapsulationKeyToBytes(backend: Backend, dk: DecapsulationKey) returns (bytes: seq<byte>)
    ensures bytes == DecapsulationKeyBytes(dk)
    ensures var n, e := 384 * |dk.dkPke.sHat.vector|, 384 * |dk.ek.ekPke.tHat|;
      && |bytes| == n + e + 96
      && bytes[..n] == KeyBytes(StoredVector(dk.dkPke.sHat.vector))
      && bytes[n..n + e + 32] == EncryptionKeyBytes(StoredVector(dk.ek.ekPke.tHat), dk.ek.ekPke.rho)
      && bytes[n + e + 32..n + e + 64] == dk.hEk && bytes[n + e + 64..] == dk.z
  {
    hide KeyBytes, EncryptionKeyBytes, StoredVector, Slice, ByteEncode, StoredResidues;
    var dkBytes := DecryptionKeyToBytes(backend, dk.dkPke);
    var ekBytes := EncryptionKeyToBytes(backend, dk.ek.ekPke);
    bytes := dkBytes + ekBytes + dk.hEk + dk.z;
    FourParts(dkBytes, ekBytes, dk.hEk, dk.z);
  }

  lemma FourParts(a: seq<byte>, b: seq<byte>, h: Bytes32, z: Bytes32)
    ensures var bytes, n, e := a + b + h + z, |a|, |a| + |b|;
      |bytes| == e + 64 && bytes[..n] == a && bytes[n..e] == b && bytes[e..e + 32] == h && bytes[e + 32..] == z
  {
  }

  lemma PartsOfBytes(s: Params, a: seq<byte>, b: seq<byte>, h: Bytes32, z: Bytes32)
    requires |a| == 384 * s.k && |b| == 384 * s.k + 32
    ensures var bytes := a + b + h + z;
            |bytes| == 768 * s.k + 96 && DkPart(s, bytes) == a && EkPart(s, bytes) == b && HashPart(s, bytes) == h && RejectionPart(s, bytes) == z
  {
  }

  lemma SerializedParts(p: Primitives, s: Params, dk: DecapsulationKey)
    requires IsParams(s) && ValidDecapsulationKey(p, s, dk)
    ensures var bytes := DecapsulationKeyBytes(dk);
            && |bytes| == 768 * s.k + 96
            && DecodedKey(DkPart(s, bytes), s.k) == StoredVector(dk.dkPke.sHat.vector)
            && DecodedKey(EkPart(s, bytes)[..384 * s.k], s.k) == StoredVector(dk.ek.ekPke.tHat)
            && EkPart(s, bytes)[384 * s.k..] == dk.ek.ekPke.rho
            && HashPart(s, bytes) == dk.hEk && RejectionPart(s, bytes) == dk.z
  {
    ValidGivesMatrix(p, s, dk.ek.ekPke);
    var sHat, tHat := StoredVector(dk.dkPke.sHat.vector), StoredVector(dk.ek.ekPke.tHat);
    hide KeyBytes, StoredVector, DecodedKey, ValidEk, DkPart, EkPart, HashPart, RejectionPart;
    PartsOfBytes(s, KeyBytes(sHat), EncryptionKeyBytes(tHat, dk.ek.ekPke.rho), dk.hEk, dk.z);
    DecodedOfKeyBytes(sHat);
    DecodedOfKeyBytes(tHat);
    assert EncryptionKeyBytes(tHat, dk.ek.ekPke.rho)[..384 * s.k] == KeyBytes(tHat);
    assert EncryptionKeyBytes(tHat, dk.ek.ekPke.rho)[384 * s.k..] == dk.ek.ekPke.rho;
  }

  /** A serialized valid key passes the parser's check. */
  lemma SerializedIsAccepted(p: Primitives, s: Params, dk: DecapsulationKey)
    requires IsParams(s) && ValidDecapsulationKey(p, s, dk)
    ensures var bytes := DecapsulationKeyBytes(dk);
            |bytes| == 768 * s.k + 96 && HashPart(s, bytes) == H(p, NormalizedEk(s, bytes))
  {
    SerializedParts(p, s, dk);
    hide KeyBytes, StoredVector, DecodedKey, ValidEk, ValidDk, DkPart, EkPart, HashPart, RejectionPart, H, DecapsulationKeyBytes;
  }

  /** A key parsed from a serialization decapsulates every ciphertext to the same
      secret as the original, though its representatives and caches differ. */
  lemma ParsedDecapsulatesAlike(p: Primitives, s: Params, dk: DecapsulationKey, parsed: DecapsulationKey, c: seq<byte>)
    requires IsParams(s) && ValidDecapsulationKey(p, s, dk) && ParsedFrom(p, s, parsed, DecapsulationKeyBytes(dk))
    requires |c| == CiphertextSize(s)
    ensures DecapsulationBy(p, s, parsed, c) == DecapsulationBy(p, s, dk, c)
  {
    SerializedParts(p, s, dk);
    hide KeyBytes, StoredVector, DecodedKey, ValidEk, ValidDk, DkPart, EkPart, HashPart, RejectionPart, H, DecapsulationKeyBytes, DecapsulationOf;
  }

  /** A serialized encapsulation key is accepted: its fields are canonical. */
  lemma SerializedEncapsulationKeyIsAccepted(p: Primitives, s: Params, ek: EncryptionKey)
    requires IsParams(s) && ValidEk(p, s, ek)
    ensures AcceptableEncapsulationKey(s, EncryptionKeyBytes(StoredVector(ek.tHat), ek.rho))
  {
    ValidGivesMatrix(p, s, ek);
    var t := StoredVector(ek.tHat);
    hide KeyBytes, StoredVector, DecodedKey, ValidEk, AllFieldsBelowQ;
    DecodedOfKeyBytes(t);
    KeyBytesOfDecoded(KeyBytes(t), s.k);
    assert EncryptionKeyBytes(t, ek.rho)[..384 * s.k] == KeyBytes(t);
  }

  /** Two encapsulation keys with one serialization have the same residues and seed, so
      they encapsulate every message to the same secret and ciphertext. */
  lemma SameBytesEncapsulateAlike(p: Primitives, s: Params, a: EncapsulationKey, b: EncapsulationKey)
    requires IsParams(s) && ValidEncapsulationKey(p, s, a) && ValidEncapsulationKey(p, s, b)
    requires EncryptionKeyBytes(StoredVector(a.ekPke.tHat), a.ekPke.rho) == EncryptionKeyBytes(StoredVector(b.ekPke.tHat), b.ekPke.rho)
    ensures StoredVector(a.ekPke.tHat) == StoredVector(b.ekPke.tHat) && a.ekPke.rho == b.ekPke.rho && a.hEk == b.hEk
  {
    ValidGivesMatrix(p, s, a.ekPke);
    ValidGivesMatrix(p, s, b.ekPke);
    var t, u := StoredVector(a.ekPke.tHat), StoredVector(b.ekPke.tHat);
    hide KeyBytes, StoredVector, DecodedKey, ValidEk;
    assert EncryptionKeyBytes(t, a.ekPke.rho)[..384 * s.k] == KeyBytes(t);
    assert EncryptionKeyBytes(u, b.ekPke.rho)[..384 * s.k] == KeyBytes(u);
    assert EncryptionKeyBytes(t, a.ekPke.rho)[384 * s.k..] == a.ekPke.rho;
    assert EncryptionKeyBytes(u, b.ekPke.rho)[384 * s.k..] == b.ekPke.rho;
    DecodedOfKeyBytes(t);
    DecodedOfKeyBytes(u);
  }

  /** `Ciphertext::try_from`: the length check, and the bytes kept as they are. */
  method ParseCiphertext(s: Params, bytes: seq<byte>) returns (r: Result<seq<byte>>)
    ensures r == if |bytes| == CiphertextSize(s) then Ok(bytes) else Err(InvalidCiphertextLength)
  {
    if |bytes| != CiphertextSize(s) {
      return Err(InvalidCiphertextLength);
    }
    r := Ok(bytes);
  }

  /** A whole exchange: generate, encapsulate, parse the ciphertext, decapsulate. The
      two parties hold one secret whenever the encryption noise is tolerated. */
  method Exchange(backend: Backend, p: Primitives, s: Params, seed: Bytes64, m: Bytes32)
    returns (sent: Bytes32, received: Bytes32, dk: DecapsulationKey)
    requires IsParams(s) && ExpandTerminates(p, p.sha3_512(seed[..32] + [s.k])[..32], s.k)
    ensures ValidDecapsulationKey(p, s, dk) && dk.ek.ekPke.rho == p.sha3_512(seed[..32] + [s.k])[..32]
    ensures (forall i | 0 <= i < 256 ::
               Tolerated(MessageBit(m, i),
                         RunNoise(p, s, dk.ek.ekPke.rho, p.sha3_512(seed[..32] + [s.k])[32..], m, p.sha3_512(m + dk.hEk)[32..])[i]))
            ==> sent == received
  {
    hide ValidEk, ValidDk, StoredVector, EncryptionOf, ExpandTerminates, RunNoise, Tolerated, MessageBit, DecapsulationBy, GeneratedWith;
    ghost var sigma: Bytes32 := p.sha3_512(seed[..32] + [s.k])[32..];
    dk := GenerateDerand(backend, p, s, seed);
    var c: seq<byte>;
    sent, c := EncapsulateDerand(backend, p, s, dk.ek, m);
    var parsed := ParseCiphertext(s, c);
    received := Decapsulate(backend, p, s, dk, parsed.value);
    ghost var noise := RunNoise(p, s, dk.ek.ekPke.rho, sigma, m, G(p, m + dk.hEk).1);
    if forall i | 0 <= i < 256 :: Tolerated(MessageBit(m, i), noise[i]) {
      DecapsulationAgrees(p, s, dk, sigma, m);
    }
  }
}
