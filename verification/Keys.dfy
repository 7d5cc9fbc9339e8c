/** Key serialization and parsing at the K-PKE level (`src/PKE.rs`, `src/encoding.rs`):
    `ByteEncode_12` of every component, one 384-byte block each. */
module Keys {
  import opened Words
  import opened Polynomials
  import opened Functions
  import opened NttSpec
  import opened BaseMul
  import opened Packing
  import opened Encoding
  import opened Blocks
  import opened MatrixSampling
  import opened Pke

  /** The serialized components of a vector of transforms. */
  function KeyBytes(t: seq<RingPoly>): (bytes: seq<byte>)
    ensures |bytes| == 384 * |t|
  {
    Flatten(KeyBlocks(t), 384)
  }

  function KeyBlocks(t: seq<RingPoly>): (blocks: seq<seq<byte>>)
    ensures |blocks| == |t| && AllSized(blocks, 384)
  {
    seq(|t|, i requires 0 <= i < |t| => ByteEncode(t[i]))
  }

  /** `ByteDecode_12` applied componentwise. */
  function DecodedKey(bytes: seq<byte>, k: nat): (t: seq<RingPoly>)
    requires |bytes| == 384 * k
    ensures |t| == k
  {
    var blocks := Chunks(bytes, 384, k);
    seq(k, i requires 0 <= i < k => ByteDecode(blocks[i]))
  }

  /** Every 12-bit field of every block is below q. */
  predicate AllFieldsBelowQ(bytes: seq<byte>, k: nat)
    requires |bytes| == 384 * k
  {
    forall i | 0 <= i < k :: FieldsBelowQ(Chunks(bytes, 384, k)[i])
  }

  /** The fields of component i are those of bytes 384 i to 384 (i + 1): decoding reduces
      them mod q, and the modulus check asks that they be below q. */
  lemma KeyFields(bytes: seq<byte>, k: nat, fields: seq<seq<nat>>)
    requires |bytes| == 384 * k && |fields| == k
    requires forall i | 0 <= i < k :: |fields[i]| == 256 && fields[i] == UnpackValues(Slice(bytes, 384 * i, 384 * (i + 1)), 12)
    ensures AllFieldsBelowQ(bytes, k) <==> forall i, n | 0 <= i < k && 0 <= n < 256 :: fields[i][n] < 3329
    ensures forall i, n | 0 <= i < k && 0 <= n < 256 :: DecodedKey(bytes, k)[i][n] == fields[i][n] % 3329
  {
    hide UnpackValues, Slice, Block, Chunks;
    var blocks := Chunks(bytes, 384, k);
    forall i | 0 <= i < k ensures fields[i] == UnpackValues(blocks[i], 12) {
      assert bytes[..384 * k] == bytes;
      ChunkIsSlice(bytes, 384 * k, 384, k, i);
    }
    assert forall i | 0 <= i < k :: FieldsBelowQ(blocks[i]) <==> forall n | 0 <= n < 256 :: fields[i][n] < 3329;
  }

  /** A serialized vector parses back to the residues it came from. */
  lemma DecodedOfKeyBytes(t: seq<RingPoly>)
    ensures DecodedKey(KeyBytes(t), |t|) == t
  {
    hide ByteEncode, ByteDecode, Flatten, Chunks;
    ChunksOfFlatten(KeyBlocks(t), 384);
    forall i | 0 <= i < |t| ensures DecodedKey(KeyBytes(t), |t|)[i] == t[i] {
      ByteDecodeOfEncode(t[i]);
    }
  }

  /** Parsing and re-serializing reproduces the bytes exactly when every field is
      canonical. */
  lemma KeyBytesOfDecoded(bytes: seq<byte>, k: nat)
    requires |bytes| == 384 * k
    ensures KeyBytes(DecodedKey(bytes, k)) == bytes <==> AllFieldsBelowQ(bytes, k)
  {
    hide ByteEncode, ByteDecode, Flatten, Chunks, FieldsBelowQ;
    var chunks, blocks := Chunks(bytes, 384, k), KeyBlocks(DecodedKey(bytes, k));
    forall i | 0 <= i < k ensures blocks[i] == chunks[i] <==> FieldsBelowQ(chunks[i]) {
      ByteEncodeOfDecode(chunks[i]);
    }
    FlattenOfChunks(bytes, 384, k);
    assert bytes[..384 * k] == bytes;
    ChunksOfFlatten(blocks, 384);
    if AllFieldsBelowQ(bytes, k) {
      assert blocks == chunks;
    }
  }

  // ---- the methods ----

  /** `byte_encoded_elements` copied block by block into a staging buffer. */
  method StageKey(backend: Backend, staged: array<byte>, t: seq<TqWords>)
    requires 384 * |t| <= staged.Length
    modifies staged
    ensures staged[..384 * |t|] == KeyBytes(StoredVector(t))
    ensures staged[384 * |t|..] == old(staged[384 * |t|..])
  {
    hide ByteEncode, StoredResidues, Flatten;
    ghost var blocks := KeyBlocks(StoredVector(t));
    var i: nat := 0;
    FlattenNothing(blocks, 384);
    while i < |t|
      invariant i <= |t|
      invariant staged[..384 * i] == Flatten(blocks[..i], 384)
      invariant staged[384 * |t|..] == old(staged[384 * |t|..])
    {
      var block := ByteEncodeElement(backend, t[i]);
      CopyInto(staged, 384 * i, block);
      FlattenStep(blocks, 384, i);
      assert staged[..384 * (i + 1)] == staged[..384 * i] + staged[384 * i..384 * i + 384];
      i := i + 1;
    }
    assert blocks[..|t|] == blocks;
  }

  /** Component i of a serialized vector is at bytes 384 i to 384 (i + 1). */
  lemma KeyParts(t: seq<TqWords>)
    ensures forall i | 0 <= i < |t| :: Slice(KeyBytes(StoredVector(t)), 384 * i, 384 * (i + 1)) == ByteEncode(StoredResidues(t[i]))
  {
    hide ByteEncode, StoredResidues, Flatten, Slice;
    var blocks := KeyBlocks(StoredVector(t));
    forall i | 0 <= i < |t| ensures Slice(KeyBytes(StoredVector(t)), 384 * i, 384 * (i + 1)) == ByteEncode(StoredResidues(t[i])) {
      FlattenSlice(blocks, 384, i);
      assert blocks[i] == ByteEncode(StoredVector(t)[i]);
    }
  }

  /** An encryption key's bytes: a function of its residues and seed. */
  function EncryptionKeyBytes(t: seq<RingPoly>, rho: Bytes32): (bytes: seq<byte>)
    ensures |bytes| == 384 * |t| + 32
  {
    KeyBytes(t) + rho
  }

  /** `EncryptionKey::to_bytes`. */
  method EncryptionKeyToBytes(backend: Backend, ek: EncryptionKey) returns (bytes: seq<byte>)
    ensures bytes == EncryptionKeyBytes(StoredVector(ek.tHat), ek.rho)
    ensures bytes[384 * |ek.tHat|..] == ek.rho
    ensures forall i | 0 <= i < |ek.tHat| :: Slice(bytes, 384 * i, 384 * (i + 1)) == ByteEncode(StoredResidues(ek.tHat[i]))
  {
    KeyParts(ek.tHat);
    hide KeyBytes, StoredVector, StoredResidues, ByteEncode;
    var n := 384 * |ek.tHat|;
    var assembled := new byte[n + 32](_ => 0);
    StageKey(backend, assembled, ek.tHat);
    CopyInto(assembled, n, ek.rho);
    bytes := assembled[..];
    assert bytes == assembled[..n] + assembled[n..n + 32];
  }

  /** `DecryptionKey::to_bytes`. */
  method DecryptionKeyToBytes(backend: Backend, dk: DecryptionKey) returns (bytes: seq<byte>)
    ensures bytes == KeyBytes(StoredVector(dk.sHat.vector))
    ensures forall i | 0 <= i < |dk.sHat.vector| ::
              Slice(bytes, 384 * i, 384 * (i + 1)) == ByteEncode(StoredResidues(dk.sHat.vector[i]))
  {
    KeyParts(dk.sHat.vector);
    hide KeyBytes, StoredVector, StoredResidues, ByteEncode, Slice;
    var staged := new byte[384 * |dk.sHat.vector|](_ => 0);
    StageKey(backend, staged, dk.sHat.vector);
    bytes := staged[..];
  }

  /** `TqVector::byte_decode`. */
  method DecodeKey(backend: Backend, bytes: seq<byte>, k: nat) returns (t: seq<TqWords>)
    requires |bytes| == 384 * k
    ensures |t| == k && StoredVector(t) == DecodedKey(bytes, k) && AllBounded(t, 3328)
  {
    hide DecodedElement, StoredResidues, ByteDecode, Chunks, Bounded;
    var chunks := Chunks(bytes, 384, k);
    t := [];
    while |t| < k
      invariant |t| <= k
      invariant forall i | 0 <= i < |t| :: StoredResidues(t[i]) == ByteDecode(chunks[i]) && Bounded(t[i], 3328)
    {
      var h := ByteDecodeElement(backend, chunks[|t|]);
      DecodedElementResidues(chunks[|t|]);
      t := t + [h];
    }
  }

  /** `EncryptionKey::from_bytes`. */
  method EncryptionKeyFromBytes(backend: Backend, p: Primitives, s: Params, bytes: seq<byte>) returns (ek: EncryptionKey)
    requires IsParams(s) && |bytes| == 384 * s.k + 32 && ExpandTerminates(p, bytes[384 * s.k..], s.k)
    ensures ValidEk(p, s, ek) && ek.rho == bytes[384 * s.k..]
    ensures StoredVector(ek.tHat) == DecodedKey(bytes[..384 * s.k], s.k)
  {
    hide StoredVector, DecodedKey, PublicMatrix, ExpandTerminates, Bounded, TransposeWords;
    var n := 384 * s.k;
    var tHat := DecodeKey(backend, bytes[..n], s.k);
    var rho: Bytes32 := bytes[n..];
    var a := Expand(backend, p, rho, s.k);
    MatrixIsCanonical(p, rho, s.k);
    AllBoundedWeakens(tHat, 3328, 4993);
    ek := EncryptionKey(tHat, rho, TransposeWords(a, s.k));
  }

  /** `DecryptionKey::from_bytes`. */
  method DecryptionKeyFromBytes(backend: Backend, s: Params, bytes: seq<byte>) returns (dk: DecryptionKey)
    requires IsParams(s) && |bytes| == 384 * s.k
    ensures ValidDk(s, dk) && StoredVector(dk.sHat.vector) == DecodedKey(bytes, s.k)
  {
    hide StoredVector, DecodedKey, Bounded;
    var v := DecodeKey(backend, bytes, s.k);
    dk := DecryptionKey(CacheVector(v));
  }
}
