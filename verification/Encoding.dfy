/** Byte serialization and compression of ring elements (`src/encoding.rs`,
    section 4.2.1 of FIPS 203). Every codec is stated twice, on machine words and on
    residues, and the two are shown to agree: the bytes depend on residues only. */
module Encoding {
  import opened Words
  import opened Zq
  import opened Polynomials
  import F = Field
  import opened Bits
  import opened Packing
  import opened NttSpec
  import B = BaseMul
  import Kernels

  type TqWords = B.TqWords

  // ---- on residues ----

  /** `Compress_d`: round((2^d / q) * x) mod 2^d. */
  function CompressValue(x: Zq, d: nat): (y: nat)
    ensures y < Pow2(d)
  {
    QuotientIsNat(Pow2(d) * x + 1664, 3329);
    QuotientIsNat((Pow2(d) * x + 1664) / 3329, Pow2(d));
    (Pow2(d) * x + 1664) / 3329 % Pow2(d)
  }

  /** `Decompress_d`: round((q / 2^d) * y). */
  function DecompressValue(y: nat, d: nat): Zq
    requires 1 <= d <= 12 && y < Pow2(d)
  {
    Scales(d);
    F.DecompressInRange(y, Pow2(d));
    (3329 * y + Pow2(d) / 2) / Pow2(d)
  }

  lemma Scales(d: nat)
    requires 1 <= d <= 12
    ensures 1 < Pow2(d) <= 0x1000 && Pow2(d) % 2 == 0
  {
    assert Pow2(d) == 2 * Pow2(d - 1);
    Pow2Monotone(d, 12);
    Pow2Monotone(1, d);
    assert Pow2(1) == 2 && Pow2(12) == 0x1000;
  }

  function CompressPoly(p: RingPoly, d: nat): (values: seq<nat>)
    ensures |values| == 256 && Digits(values, d)
  {
    seq(256, i requires 0 <= i < 256 => CompressValue(p[i], d))
  }

  function DecompressPoly(values: seq<nat>, d: nat): (p: RingPoly)
    requires |values| == 256 && 1 <= d <= 12 && Digits(values, d)
  {
    seq(256, i requires 0 <= i < 256 => DecompressValue(values[i], d))
  }

  /** `ByteEncode_d(Compress_d(p))`. */
  function EncodeCompressed(p: RingPoly, d: nat): (bytes: seq<byte>)
    ensures |bytes| == 32 * d
  {
    PackBytes(CompressPoly(p, d), d)
  }

  /** `Decompress_d(ByteDecode_d(bytes))`. */
  function DecodeCompressed(bytes: seq<byte>, d: nat): RingPoly
    requires 1 <= d <= 12
  {
    DecompressPoly(UnpackValues(bytes, d), d)
  }

  /** `ByteEncode_12` of canonical coefficients. */
  function ByteEncode(p: RingPoly): (bytes: seq<byte>)
    ensures |bytes| == 384
  {
    PackBytes(p, 12)
  }

  /** `ByteDecode_12`: every 12-bit field reduced mod q. */
  function ByteDecode(bytes: seq<byte>): RingPoly {
    var values := UnpackValues(bytes, 12);
    seq(256, i requires 0 <= i < 256 => Residue(values[i]))
  }

  lemma CanonicalFitsTwelveBits(p: RingPoly)
    ensures Digits(p, 12)
  {
    assert Pow2(12) == 0x1000;
  }

  /** Decoding an encoding gives the polynomial back. */
  lemma ByteDecodeOfEncode(p: RingPoly)
    ensures ByteDecode(ByteEncode(p)) == p
  {
    hide UnpackValues, PackBytes, Residue;
    CanonicalFitsTwelveBits(p);
    UnpackOfPack(p, 12);
    forall i | 0 <= i < 256 ensures ByteDecode(ByteEncode(p))[i] == p[i] {
      ResidueOfZq(p[i]);
    }
  }

  /** The 12-bit fields of a block are all below q. */
  predicate FieldsBelowQ(bytes: seq<byte>) {
    forall i | 0 <= i < 256 :: UnpackValues(bytes, 12)[i] < 3329
  }

  /** The first field of a block is its first twelve bits. */
  lemma FirstField(bytes: seq<byte>, b0: nat, b1: nat)
    requires |bytes| >= 2 && b0 == bytes[0] && b1 == bytes[1]
    ensures UnpackValues(bytes, 12)[0] == (b0 + 256 * b1) % 4096
    ensures (b0 + 256 * b1) % 4096 >= 3329 ==> !FieldsBelowQ(bytes)
  {
    TwoDigits(bytes, b0, b1);
    assert Pow2(12) == 4096;
    hide Value, Pow2;
    MultipleVanishes(b0 + 256 * b1, 4096, 16 * Value(bytes[2..], 8));
  }

  lemma TwoDigits(bytes: seq<nat>, b0: nat, b1: nat)
    requires |bytes| >= 2 && b0 == bytes[0] && b1 == bytes[1]
    ensures Value(bytes, 8) == b0 + 256 * b1 + 4096 * (16 * Value(bytes[2..], 8))
  {
    assert Pow2(8) == 256;
    assert bytes[1..][1..] == bytes[2..];
  }

  /** Re-encoding reproduces the block exactly when every field is canonical. */
  lemma ByteEncodeOfDecode(bytes: seq<byte>)
    requires |bytes| == 384
    ensures ByteEncode(ByteDecode(bytes)) == bytes <==> FieldsBelowQ(bytes)
  {
    hide UnpackValues, PackBytes, Residue;
    var values, p := UnpackValues(bytes, 12), ByteDecode(bytes);
    CanonicalFitsTwelveBits(p);
    PackOfUnpack(bytes, 12);
    UnpackOfPack(p, 12);
    if FieldsBelowQ(bytes) {
      forall i | 0 <= i < 256 ensures p[i] == values[i] {
        ResidueOfZq(values[i]);
      }
      assert p == values;
    }
    if ByteEncode(p) == bytes {
      assert p == values;
    }
  }

  // ---- on machine words ----

  /** `compressed`: `Compress_d` of every coefficient. */
  function CompressWords(f: RqWords, d: nat): (values: seq<nat>)
    requires 1 <= d <= 12
    ensures values == CompressPoly(Residues(f), d)
  {
    Scales(d);
    CompressAll(f, Pow2(d))
  }

  /** `decompress`: `Decompress_d` of every value. */
  function DecompressWords(values: seq<nat>, d: nat): (f: RqWords)
    requires |values| == 256 && 1 <= d <= 12 && Digits(values, d)
    ensures Residues(f) == DecompressPoly(values, d) && Bounded(f, 3328)
  {
    Scales(d);
    DecompressedEntries(values, d);
    DecompressAll(values, Pow2(d))
  }

  lemma DecompressedEntries(values: seq<nat>, d: nat)
    requires |values| == 256 && 1 <= d <= 12 && Digits(values, d)
    ensures 1 < Pow2(d) <= 0x1000 && Pow2(d) % 2 == 0
    ensures forall i | 0 <= i < 256 ::
              F.Decompress(values[i], Pow2(d)) == DecompressValue(values[i], d) == Residue(F.Decompress(values[i], Pow2(d)))
  {
    hide Residue;
    Scales(d);
    forall i | 0 <= i < 256
      ensures F.Decompress(values[i], Pow2(d)) == DecompressValue(values[i], d) == Residue(F.Decompress(values[i], Pow2(d)))
    {
      ResidueOfZq(F.Decompress(values[i], Pow2(d)));
    }
  }

  /** `compress_encode`, cut to its 32 * d bytes. */
  method CompressEncode(backend: Backend, f: RqWords, d: nat) returns (bytes: seq<byte>)
    requires 1 <= d <= 12
    ensures bytes == EncodeCompressed(Residues(f), d)
  {
    hide Pow2, CompressAll, CompressPoly, PackBytes;
    Scales(d);
    var compressed := Kernels.Compress(backend, f, d);
    assert compressed[..] == CompressWords(f, d);
    var out := Kernels.PackBits(backend, compressed[..], d);
    bytes := out[..32 * d];
  }

  /** `decode_decompress`. */
  function DecodedWords(bytes: seq<byte>, d: nat): (f: RqWords)
    requires 1 <= d <= 12
    ensures Residues(f) == DecodeCompressed(bytes, d) && Bounded(f, 3328)
  {
    DecompressWords(UnpackValues(bytes, d), d)
  }

  method DecodeDecompress(backend: Backend, bytes: seq<byte>, d: nat) returns (f: RqWords)
    requires 1 <= d <= 12
    ensures f == DecodedWords(bytes, d)
  {
    hide Pow2, DecompressAll, UnpackValues;
    Scales(d);
    var values := Kernels.UnpackBits(backend, bytes, d);
    f := Kernels.Decompress(backend, values, d);
  }

  /** `byte_encode`: depends on the residues of the element only. */
  method ByteEncodeElement(backend: Backend, h: TqWords) returns (bytes: seq<byte>)
    ensures bytes == ByteEncode(B.StoredResidues(h))
  {
    hide PackBytes, B.StoredResidues;
    var natural := Kernels.Canonical(backend, h);
    CanonicalFitsTwelveBits(B.StoredResidues(h));
    var out := Kernels.PackBits(backend, natural[..], 12);
    bytes := out[..384];
  }

  /** `byte_decode`: canonical representatives in split storage. */
  function DecodedElement(bytes: seq<byte>): (h: TqWords) {
    B.Split(ByteDecode(bytes))
  }

  lemma DecodedElementResidues(bytes: seq<byte>)
    ensures B.StoredResidues(DecodedElement(bytes)) == ByteDecode(bytes)
    ensures Bounded(DecodedElement(bytes), 3328)
  {
    hide UnpackValues, Residue;
    var p := ByteDecode(bytes);
    forall i | 0 <= i < 256 ensures Residue(p[i]) == p[i] {
      ResidueOfZq(p[i]);
    }
    assert B.Interleave(DecodedElement(bytes)) == p;
  }

  method ByteDecodeElement(backend: Backend, bytes: seq<byte>) returns (h: TqWords)
    ensures h == DecodedElement(bytes)
  {
    hide UnpackValues, Residue;
    var values := Kernels.UnpackBits(backend, bytes, 12);
    assert Pow2(12) == 0x1000;
    var coefficients: RqWords := seq(256, i requires 0 <= i < 256 => F.New(values[i]));
    assert coefficients == ByteDecode(bytes);
    var halves := Kernels.SplitNatural(backend, coefficients);
    h := halves[..];
  }

  // ---- messages ----

  /** The message bit decoded at a coefficient: 1 in the middle half of the circle. */
  lemma CompressToBit(x: Zq)
    ensures CompressValue(x, 1) == if 833 <= x <= 2496 then 1 else 0
  {
    assert Pow2(1) == 2;
  }

  lemma DecompressBit(bit: nat)
    requires bit < 2
    ensures Pow2(1) == 2 && DecompressValue(bit, 1) == if bit == 1 then 1665 else 0
  {
    assert Pow2(1) == 2;
  }

  /** The representative of a residue nearest to zero. */
  function Centered(x: Zq): (c: int)
    ensures -1664 <= c <= 1664 && Residue(c) == x
  {
    if x <= 1664 then x else x - 3329
  }

  /** The noise a message bit tolerates: [-832, 832] on a zero, [-832, 831] on a one. */
  predicate Tolerated(bit: nat, noise: Zq) {
    -832 <= Centered(noise) <= 832 - bit
  }

  /** A message bit survives exactly the tolerated noise. */
  lemma BitSurvivesIff(bit: nat, noise: Zq)
    requires bit < 2
    ensures Pow2(1) == 2
    ensures CompressValue(Plus(DecompressValue(bit, 1), noise), 1) == bit <==> Tolerated(bit, noise)
  {
    hide CompressValue, DecompressValue, Plus;
    DecompressBit(bit);
    CompressToBit(Plus(DecompressValue(bit, 1), noise));
    PlusWraps(DecompressValue(bit, 1), noise);
  }

  lemma PlusWraps(a: Zq, b: Zq)
    ensures Plus(a, b) == if a + b < 3329 then a + b else a + b - 3329
  {
  }

  /** Not every |noise| < q/4 survives: 832 on a one bit decodes to zero. */
  lemma QuarterNoiseCanFail()
    ensures 4 * Abs(Centered(832)) < 3329 && Pow2(1) == 2
    ensures CompressValue(Plus(DecompressValue(1, 1), 832), 1) == 0
  {
    BitSurvivesIff(1, 832);
  }

  /** `from_message`. */
  function MessagePoly(m: seq<byte>): RingPoly {
    DecodeCompressed(m, 1)
  }

  /** `compress_message`. */
  function MessageOf(w: RingPoly): (m: seq<byte>)
    ensures |m| == 32
  {
    EncodeCompressed(w, 1)
  }

  /** Message bit `i`. */
  function MessageBit(m: seq<byte>, i: nat): (bit: nat)
    requires i < 256
    ensures bit < 2
  {
    assert Pow2(1) == 2;
    UnpackValues(m, 1)[i]
  }

  /** Decoded coefficient i is round((q / 2^d) y) of field i of the bytes. */
  lemma DecodedCoefficient(bytes: seq<byte>, d: nat, i: nat)
    requires 1 <= d <= 12 && i < 256
    ensures DecodeCompressed(bytes, d)[i] == (3329 * UnpackValues(bytes, d)[i] + Pow2(d) / 2) / Pow2(d)
  {
    hide Pow2, UnpackValues;
  }

  /** Bit `j` of the compressed coefficient i is bit d i + j of the encoding. */
  lemma CompressedBitAt(p: RingPoly, d: nat, i: nat, j: nat, k: nat)
    requires i < 256 && j < d && k == i * d + j
    ensures k / 8 < |EncodeCompressed(p, d)|
    ensures Bit(EncodeCompressed(p, d)[k / 8], k % 8) == Bit(CompressValue(p[i], d), j)
  {
    hide PackBytes, CompressValue, Bit;
    BitLandsAt(CompressPoly(p, d), d, i, j);
  }

  /** Bit `j` of coefficient i is bit 12 i + j of the uncompressed encoding. */
  lemma EncodedBitAt(p: RingPoly, i: nat, j: nat, k: nat)
    requires i < 256 && j < 12 && k == i * 12 + j
    ensures k / 8 < 384 && Bit(ByteEncode(p)[k / 8], k % 8) == Bit(p[i], j)
  {
    hide PackBytes, Bit;
    CanonicalFitsTwelveBits(p);
    BitLandsAt(p, 12, i, j);
  }

  /** Coefficient i of the message polynomial is 1665 or 0, as bit i of the message says. */
  lemma MessageCoefficient(m: seq<byte>, i: nat)
    requires |m| == 32 && i < 256
    ensures MessageBit(m, i) == Bit(m[i / 8], i % 8)
    ensures MessagePoly(m)[i] == if Bit(m[i / 8], i % 8) == 1 then 1665 else 0
  {
    hide PackBytes, UnpackValues, DecompressValue, Bit;
    PackOfUnpack(m, 1);
    BitLandsAt(UnpackValues(m, 1), 1, i, 0);
    BitOfBit(MessageBit(m, i));
    DecompressBit(MessageBit(m, i));
  }

  lemma BitOfBit(b: nat)
    requires b < 2
    ensures Bit(b, 0) == b
  {
    assert Pow2(0) == 1;
  }

  /** A noisy message polynomial decodes to the message exactly when every
      coefficient's noise is tolerated by its bit. */
  lemma MessageSurvivesIff(m: seq<byte>, noise: RingPoly)
    requires |m| == 32
    ensures MessageOf(AddP(MessagePoly(m), noise)) == m
       <==> forall i | 0 <= i < 256 :: Tolerated(MessageBit(m, i), noise[i])
  {
    hide UnpackValues, PackBytes, CompressValue, DecompressValue, Tolerated, Plus;
    var bits := UnpackValues(m, 1);
    var w := AddP(MessagePoly(m), noise);
    var decoded := CompressPoly(w, 1);
    PackOfUnpack(m, 1);
    UnpackOfPack(decoded, 1);
    forall i | 0 <= i < 256 ensures decoded[i] == bits[i] <==> Tolerated(MessageBit(m, i), noise[i]) {
      BitSurvivesIff(MessageBit(m, i), noise[i]);
    }
    if MessageOf(w) == m {
      assert decoded == bits;
    }
    if forall i | 0 <= i < 256 :: Tolerated(MessageBit(m, i), noise[i]) {
      assert decoded == bits;
    }
  }
}
