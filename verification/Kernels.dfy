/** The kernels a build selects (`src/algebraic/poly/arch.rs`, `src/encoding/arch.rs`):
    every backend keeps one contract, so nothing above this module depends on the choice. */
module Kernels {
  import opened Words
  import opened Bits
  import F = Field
  import opened NttSpec
  import BaseMul
  import ScalarNtt
  import SimdNtt
  import SimdTransforms
  import SimdKernels
  import Avx2BaseMul
  import NeonBaseMul
  import Packing
  import SimdPacking
  import SimdUnpacking

  /** `ntt`. */
  method Ntt(backend: Backend, c: array<i16>)
    requires c.Length == 256
    modifies c
    ensures c[..] == NttWords(old(c[..]))
  {
    match backend
    case Generic => ScalarNtt.Ntt(c);
    case Vector(Avx2, _) => SimdNtt.NttAvx2(c);
    case Vector(Neon, pipelined) => SimdTransforms.NttNeon(pipelined, c);
  }

  /** `ntt_inverse`. */
  method NttInverse(backend: Backend, c: array<i16>)
    requires c.Length == 256
    modifies c
    ensures c[..] == InverseNttWords(old(c[..]))
  {
    match backend
    case Generic => ScalarNtt.InverseNtt(c);
    case Vector(simd, _) => SimdTransforms.InverseNttSimd(simd, c);
  }

  /** `pack`: natural order to split storage. */
  method SplitNatural(backend: Backend, natural: seq<i16>) returns (halves: array<i16>)
    requires |natural| == 256
    ensures fresh(halves) && halves[..] == BaseMul.Split(natural)
  {
    match backend
    case Generic => halves := BaseMul.Pack(natural);
    case Vector(simd, _) => halves := SimdKernels.Pack(simd, natural);
  }

  /** `unpack`: split storage to natural order. */
  method InterleaveHalves(backend: Backend, halves: seq<i16>) returns (natural: array<i16>)
    requires |halves| == 256
    ensures fresh(natural) && natural[..] == BaseMul.Interleave(halves)
  {
    match backend
    case Generic => natural := BaseMul.Unpack(halves);
    case Vector(simd, _) => natural := SimdKernels.Unpack(simd, halves);
  }

  /** `multiply`. */
  method Multiply(backend: Backend, f: seq<i16>, g: seq<i16>) returns (h: array<i16>)
    requires |f| == |g| == 256
    ensures h[..] == BaseMul.MultiplyWords(f, g)
  {
    match backend
    case Generic => h := BaseMul.Multiply(f, g);
    case Vector(simd, _) => h := SimdKernels.Multiply(simd, f, g);
  }

  /** `accumulated_dot`: the accumulator's calls, all on one backend. */
  method AccumulatedDot(backend: Backend, f: seq<RqWords>, g: seq<RqWords>, caches: seq<BaseMul.CacheWords>) returns (h: array<i16>)
    requires |f| == |g| == |caches|
    ensures h[..] == BaseMul.DotWords(f, g, caches)
  {
    match backend
    case Generic => h := BaseMul.AccumulatedDot(f, g, caches);
    case Vector(Avx2, _) => h := Avx2BaseMul.AccumulatedDotAvx2(f, g, caches);
    case Vector(Neon, _) => h := NeonBaseMul.AccumulatedDotNeon(f, g, caches);
  }

  /** `compress`; the scalar form is a map. */
  method Compress(backend: Backend, f: RqWords, d: nat) returns (values: array<nat>)
    requires 1 < Pow2(d) <= 0x1000
    ensures values[..] == CompressAll(f, Pow2(d))
  {
    hide Pow2, F.Compress;
    match backend
    case Generic => values := new nat[256](i requires 0 <= i < 256 => F.Compress(f[i], Pow2(d)));
    case Vector(simd, _) => values := SimdKernels.CompressElement(simd, f, d);
  }

  /** `decompress`; the scalar form is a map. */
  method Decompress(backend: Backend, values: seq<nat>, d: nat) returns (f: RqWords)
    requires |values| == 256 && 1 < Pow2(d) <= 0x1000 && Pow2(d) % 2 == 0 && Digits(values, d)
    ensures f == DecompressAll(values, Pow2(d))
  {
    hide Pow2, F.Decompress;
    match backend
    case Generic => f := DecompressAll(values, Pow2(d));
    case Vector(simd, _) =>
      var out := SimdKernels.DecompressElement(simd, values, Pow2(d));
      f := out[..];
  }

  /** `canonical`. */
  method Canonical(backend: Backend, h: RqWords) returns (natural: array<nat>)
    ensures fresh(natural) && natural[..] == BaseMul.StoredResidues(h)
  {
    match backend
    case Generic => natural := BaseMul.Canonical(h);
    case Vector(simd, _) => natural := SimdKernels.Canonical(simd, h);
  }

  /** The bit packer. */
  method PackBits(backend: Backend, values: seq<nat>, d: nat) returns (out: array<byte>)
    requires |values| == 256 && 1 <= d <= 12 && Digits(values, d)
    ensures out.Length == 384 && out[..32 * d] == Packing.PackBytes(values, d)
  {
    match backend
    case Generic => out := Packing.Pack(values, d);
    case Vector(simd, _) => out := SimdPacking.Pack(simd, values, d);
  }

  /** The bit unpacker. */
  method UnpackBits(backend: Backend, bytes: seq<byte>, d: nat) returns (values: seq<nat>)
    requires 1 <= d <= 12
    ensures values == Packing.UnpackValues(bytes, d)
  {
    match backend
    case Generic => values := Packing.Unpack(bytes, d);
    case Vector(simd, _) => values := SimdUnpacking.Unpack(simd, bytes, d);
  }
}
