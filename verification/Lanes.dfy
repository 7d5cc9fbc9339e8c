/** One lane of each vector instruction the SIMD backends use, and the lane forms of
    the field operations built from them (`src/algebraic/poly/arch/avx2.rs`,
    `src/algebraic/poly/arch/neon.rs`). Each returns the scalar representative itself,
    not merely a congruent one. */
module Lanes {
  import opened Words
  import opened Zq
  import opened Field
  import opened ZetaTables
  import opened NttSpec

  // ---- instructions ----

  /** `mullo` / `mul`: the low half of the product. */
  function MulLow(a: i16, b: i16): i16 {
    Wrap16(a * b)
  }

  /** `mulhi`: the high half of the product. */
  function MulHigh(a: i16, b: i16): (r: i16)
    ensures r == ((a as int) * (b as int)) / 0x1_0000
  {
    ProductBound(a, b, 0x8000, 0x8000);
    ((a as int) * (b as int)) / 0x1_0000
  }

  /** `mulhrs`: the rounded product, truncated to sixteen bits. */
  function MulRounded(a: i16, b: i16): i16 {
    Wrap16((((a as int) * (b as int)) / 0x4000 + 1) / 2)
  }

  /** `sqrdmulh`: the rounded doubled product, saturated to sixteen bits. */
  function MulDoubledRounded(a: i16, b: i16): i16 {
    Saturate16((2 * ((a as int) * (b as int)) + 0x8000) / 0x1_0000)
  }

  function Saturate16(x: int): i16 {
    if x > 0x7FFF then 0x7FFF else if x < -0x8000 then -0x8000 else x
  }

  /** `mls`: multiply and subtract. */
  function MulSubtract(c: i16, a: i16, b: i16): i16 {
    Wrap16(c - a * b)
  }

  // ---- multiplication by a constant ----

  /** `barrett_const_mul`: AVX2 takes four instructions, NEON three. */
  function ConstMulLane(simd: Simd, a: i16, b: i16, bBar: i16): i16 {
    match simd
    case Avx2 => Sub(MulLow(a, b), MulLow(MulRounded(a, bBar), 3329))
    case Neon => MulSubtract(MulLow(a, b), MulDoubledRounded(a, bBar), 3329)
  }

  lemma RoundedQuotients(n: int)
    ensures (n / 0x4000 + 1) / 2 == (n + 0x4000) / 0x8000
    ensures (2 * n + 0x8000) / 0x1_0000 == (n + 0x4000) / 0x8000
  {
  }

  lemma WrapOfDifference(x: int, y: int)
    ensures Wrap16(x - Wrap16(y)) == Wrap16(x - y)
  {
  }

  lemma ConstMulUnfolds(a: i16, b: i16, bBar: i16, n: int, t: int)
    requires IsBarrettMultiplier(b, bBar) && n == (a as int) * (b as int)
    requires t == ((a as int) * (bBar as int) + 0x4000) / 0x8000
    ensures -0x8000 <= t < 0x8000
    ensures BarrettConstMul(a, b, bBar) == Wrap16(Wrap16(n) - t * 3329)
  {
    BarrettConstRemainder(a, b, bBar);
    WrapOfDifference(Wrap16(n), t * 3329);
  }

  /** Both instruction sequences give the scalar representative. */
  lemma ConstMulLaneIsScalar(simd: Simd, a: i16, b: i16, bBar: i16)
    requires IsBarrettMultiplier(b, bBar)
    ensures ConstMulLane(simd, a, b, bBar) == BarrettConstMul(a, b, bBar)
  {
    hide ConstMulLane, BarrettConstMul, IsBarrettMultiplier;
    var n: int := (a as int) * (b as int);
    var p: int := (a as int) * (bBar as int);
    var t: int := (p + 0x4000) / 0x8000;
    ConstMulUnfolds(a, b, bBar, n, t);
    if simd.Avx2? {
      FourInstructions(a, b, bBar, n, p, t);
    } else {
      ThreeInstructions(a, b, bBar, n, p, t);
    }
  }

  lemma FourInstructions(a: i16, b: i16, bBar: i16, n: int, p: int, t: int)
    requires n == (a as int) * (b as int) && p == (a as int) * (bBar as int)
    requires t == (p + 0x4000) / 0x8000 && -0x8000 <= t < 0x8000
    ensures ConstMulLane(Avx2, a, b, bBar) == Wrap16(Wrap16(n) - t * 3329)
  {
    hide Wrap16;
    RoundedQuotients(p);
    assert MulRounded(a, bBar) == t;
    hide MulRounded;
    WrapOfDifference(Wrap16(n), t * 3329);
  }

  lemma ThreeInstructions(a: i16, b: i16, bBar: i16, n: int, p: int, t: int)
    requires n == (a as int) * (b as int) && p == (a as int) * (bBar as int)
    requires t == (p + 0x4000) / 0x8000 && -0x8000 <= t < 0x8000
    ensures ConstMulLane(Neon, a, b, bBar) == Wrap16(Wrap16(n) - t * 3329)
  {
    hide Wrap16;
    RoundedQuotients(p);
    assert MulDoubledRounded(a, bBar) == t;
    hide MulDoubledRounded;
  }

  // ---- Montgomery multiplication ----

  /** `fqmul`: AVX2 subtracts two high halves, NEON widens, subtracts and narrows. */
  function MulLane(simd: Simd, a: i16, b: i16): i16 {
    match simd
    case Avx2 => Sub(MulHigh(a, b), MulHigh(MulLow(MulLow(a, b), QINV), 3329))
    case Neon => WideningMulBound(a, b); NarrowReduce((a as int) * (b as int))
  }

  /** NEON's `montgomery_reduce` on one 32-bit lane: narrow, multiply, widen, subtract
      and narrow the high half. */
  function NarrowReduce(a: i32): i16 {
    var m := MulLow(Wrap16(a), QINV);
    Wrap16(Wrap32(a - m * 3329) / 0x1_0000)
  }

  /** It gives the scalar representative for every 32-bit lane. */
  lemma NarrowReduceIsScalar(a: i32)
    ensures NarrowReduce(a) == MontgomeryReduce(a)
  {
  }

  /** Equal low halves cancel: the difference of the high halves is the high half of
      the difference. */
  lemma HighHalves(x: int, y: int)
    requires (x - y) % 0x1_0000 == 0
    ensures x / 0x1_0000 - y / 0x1_0000 == (x - y) / 0x1_0000
  {
  }

  lemma MulLaneIsScalar(simd: Simd, a: i16, b: i16)
    ensures MulLane(simd, a, b) == Mul(a, b)
  {
    if simd.Avx2? {
      HighHalfForm(a, b);
    } else {
      WideForm(a, b);
    }
  }

  lemma HighHalfForm(a: i16, b: i16)
    ensures MulLane(Avx2, a, b) == Mul(a, b)
  {
    hide Wrap16, Mul, MontgomeryFactor, MulLow, ProductAsWord, MulHigh;
    var n := ProductAsWord(a, b);
    var m := MontgomeryFactor(n);
    LowProduct(a, b);
    MulUnfolds(a, b, n, m);
    HighHalves(n, (m as int) * 3329);
    assert MulLane(Avx2, a, b) == Wrap16(MulHigh(a, b) - MulHigh(m, 3329));
  }

  lemma WideForm(a: i16, b: i16)
    ensures MulLane(Neon, a, b) == Mul(a, b)
  {
    hide Wrap16, Wrap32;
    var n := ProductAsWord(a, b);
    LowProduct(a, b);
  }

  function ProductAsWord(a: i16, b: i16): (n: i32)
    ensures n == (a as int) * (b as int)
  {
    WideningMulBound(a, b);
    (a as int) * (b as int)
  }

  lemma LowProduct(a: i16, b: i16)
    ensures MulLow(MulLow(a, b), QINV) == MontgomeryFactor(ProductAsWord(a, b))
  {
  }

  /** A product of two words is far from the range where the subtraction wraps. */
  lemma MulUnfolds(a: i16, b: i16, n: i32, m: i16)
    requires n == (a as int) * (b as int) && m == MontgomeryFactor(n)
    ensures Mul(a, b) == Wrap16((n - m * 3329) / 0x1_0000)
  {
    WideningMulBound(a, b);
    ProductBound(m, 3329, 0x8000, 3329);
    assert Wrap32(n - m * 3329) == n - m * 3329;
  }

  // ---- Barrett reduction ----

  /** `barrett_reduce`: AVX2 rounds a high half, NEON works in 32-bit lanes. */
  function ReduceLane(simd: Simd, a: i16): i16 {
    match simd
    case Avx2 => Sub(a, MulLow(Add(MulHigh(a, 20159), 0x200) / 0x400, 3329))
    case Neon => Wrap16(Wrap32(a - Wrap32(Wrap32(0x200_0000 + Wrap32(a * 20159)) / 0x400_0000 * 3329)))
  }

  lemma NestedRounding(n: int)
    ensures (n / 0x1_0000 + 0x200) / 0x400 == (n + 0x200_0000) / 0x400_0000
  {
  }

  lemma BarrettUnfolds(a: i16, t: int)
    requires t == (20159 * (a as int) + 0x200_0000) / 0x400_0000
    ensures -11 <= t <= 11 && Barrett(a) == Wrap16(a - t * 3329)
  {
    BarrettRemainder(a, t);
    SubtractMultiple(a, t, a - t * 3329);
  }

  lemma HighReduceIsScalar(a: i16, n: int, t: int)
    requires n == 20159 * (a as int) && t == (n + 0x200_0000) / 0x400_0000
    ensures ReduceLane(Avx2, a) == Barrett(a)
  {
    hide Barrett;
    NestedRounding(n);
    BarrettUnfolds(a, t);
    var high := MulHigh(a, 20159);
    assert high == n / 0x1_0000;
    hide MulHigh, Wrap16;
    assert Add(high, 0x200) == high + 0x200;
    WrapOfDifference(a, t * 3329);
  }

  lemma WideReduceIsScalar(a: i16, n: int, t: int)
    requires n == 20159 * (a as int) && t == (n + 0x200_0000) / 0x400_0000
    ensures ReduceLane(Neon, a) == Barrett(a)
  {
    hide Barrett, Wrap16, Wrap32;
    BarrettUnfolds(a, t);
    Fits32(n);
    Fits32(0x200_0000 + n);
    Fits32(t * 3329);
    Fits32(a - t * 3329);
  }

  lemma Fits32(x: int)
    requires -0x8000_0000 <= x < 0x8000_0000
    ensures Wrap32(x) == x
  {
  }

  lemma ReduceLaneIsScalar(simd: Simd, a: i16)
    ensures ReduceLane(simd, a) == Barrett(a)
  {
    hide Barrett, ReduceLane;
    var n: int := 20159 * (a as int);
    if simd.Avx2? {
      HighReduceIsScalar(a, n, (n + 0x200_0000) / 0x400_0000);
    } else {
      WideReduceIsScalar(a, n, (n + 0x200_0000) / 0x400_0000);
    }
  }

  // ---- compression ----

  /** `canonical_lanes`: reduce, then add q under the sign mask. */
  function CanonicalLane(simd: Simd, a: i16): i16 {
    var r := ReduceLane(simd, a);
    Add(r, if r < 0 then 3329 else 0)
  }

  lemma CanonicalLaneIsScalar(simd: Simd, a: i16)
    ensures CanonicalLane(simd, a) == Value(a)
  {
    ReduceLaneIsScalar(simd, a);
  }

  /** The multiplier of NEON's compression: ceil(2^(31 + d) / q), with `scale` = 2^d. */
  function CompressMultiplier(scale: nat): nat {
    (0x8000_0000 * scale + 3328) / 3329
  }

  /** `vqrdmulhq_s32(x, multiplier)`: the rounded doubled high half of a 32-bit product. */
  function MulDoubledRounded32(x: int, m: int): int {
    (2 * (x * m) + 0x8000_0000) / 0x1_0000_0000
  }

  /** The rounded product with the ceiling multiplier is the exact division by q, for
      every canonical coefficient and every width up to twelve bits. */
  lemma CompressMultiplierExact(x: Zq, scale: nat)
    requires 1 <= scale <= 0x1000
    ensures MulDoubledRounded32(x, CompressMultiplier(scale)) == (scale * x + 1664) / 3329
  {
    var m := CompressMultiplier(scale);
    var e := 3329 * m - 0x8000_0000 * scale;
    assert 0 <= e < 3329;
    var y := (scale * x + 1664) / 3329;
    var s := scale * x + 1664 - 3329 * y;
    assert 0 <= s < 3329;
    var p: int := x * m;
    assert 3329 * p == 0x8000_0000 * (scale * x) + x * e by {
      assert x * (3329 * m) == x * (0x8000_0000 * scale + e);
      assert x * (0x8000_0000 * scale) == 0x8000_0000 * (scale * x);
    }
    ProductBound(x, e, 3328, 3328);
    assert 0 <= x * e;
    RoundedDivision(p, y, s, x * e);
  }

  lemma RoundedDivision(p: int, y: int, s: int, xe: int)
    requires 3329 * p == 0x8000_0000 * (3329 * y + s - 1664) + xe && 0 <= s < 3329 && 0 <= xe <= 11075584
    ensures (2 * p + 0x8000_0000) / 0x1_0000_0000 == y
  {
    var d := 2 * p + 0x8000_0000 - 0x1_0000_0000 * y;
    assert 3329 * d == 0x8000_0000 * (2 * s + 1) + 2 * xe;
    assert 0 <= d < 0x1_0000_0000;
  }

  /** AVX2's `divide_by_q` on one 32-bit lane: the 64-bit product shifted down by 33. */
  function DivideLane(a: nat): nat {
    a * 2580335 / 0x2_0000_0000
  }

  /** One lane of `Compress_d`. */
  function CompressLane(simd: Simd, a: i16, scale: nat): nat
    requires 1 < scale <= 0x1000
  {
    CompressCanonical(simd, CanonicalAsNat(simd, a), scale)
  }

  function CompressCanonical(simd: Simd, x: nat, scale: nat): nat
    requires 1 < scale <= 0x1000
  {
    match simd
    case Avx2 => DivideLane(x * scale + 1664) % scale
    case Neon => MulDoubledRounded32(x, CompressMultiplier(scale)) % scale
  }

  function CanonicalAsNat(simd: Simd, a: i16): (x: nat)
    ensures x == Value(a)
  {
    CanonicalLaneIsScalar(simd, a);
    CanonicalLane(simd, a)
  }

  lemma DivideLaneExact(n: nat)
    requires n <= 4096 * 3328 + 1664
    ensures DivideLane(n) == n / 3329
  {
    assert DivideByQ(n) == DivideLane(n);
  }

  /** Both backends compress every representative as the scalar code does. */
  lemma CompressLaneIsScalar(simd: Simd, a: i16, scale: nat)
    requires 1 < scale <= 0x1000
    ensures CompressLane(simd, a, scale) == Compress(a, scale)
  {
    var x: Zq := Residue(a);
    assert CanonicalAsNat(simd, a) == x;
    hide Value, Residue, CanonicalAsNat, CompressCanonical;
    CompressCanonicalExact(simd, x, scale);
  }

  lemma CompressCanonicalExact(simd: Simd, x: Zq, scale: nat)
    requires 1 < scale <= 0x1000
    ensures CompressCanonical(simd, x, scale) == ((scale * x + 1664) / 3329) % scale
  {
    hide DivideLane, MulDoubledRounded32, CompressMultiplier;
    if simd.Avx2? {
      ProductBound(scale, x, 0x1000, 3328);
      assert x * scale == scale * x;
      DivideLaneExact(scale * x + 1664);
    } else {
      CompressMultiplierExact(x, scale);
    }
  }

  // ---- decompression ----

  /** One lane of `Decompress_d`: AVX2 in unsigned 32-bit lanes with a saturating pack,
      NEON in signed ones, narrowed. */
  function DecompressLane(simd: Simd, y: nat, scale: nat): i16
    requires y < scale && 1 < scale <= 0x1000
  {
    var n := Wrap32(y * 3329);
    match simd
    case Avx2 => Wrap16(SaturateU16(Wrap32(n + scale / 2) % 0x1_0000_0000 / scale))
    case Neon => Wrap16(Wrap32(scale / 2 + y * 3329) / scale)
  }

  /** `packus`: signed lanes saturated to unsigned sixteen bits. */
  function SaturateU16(x: int): (r: nat)
    ensures r <= 0xFFFF
    ensures 0 <= x <= 0xFFFF ==> r == x
  {
    if x < 0 then 0 else if x > 0xFFFF then 0xFFFF else x
  }

  /** Both backends decompress every value as the scalar code does. */
  lemma DecompressLaneIsScalar(simd: Simd, y: nat, scale: nat)
    requires y < scale && 1 < scale <= 0x1000 && scale % 2 == 0
    ensures DecompressLane(simd, y, scale) == Decompress(y, scale)
  {
    hide Wrap16, Wrap32, Decompress;
    DecompressInRange(y, scale);
    var n: int := 3329 * y + scale / 2;
    assert Wrap32(y * 3329) == y * 3329 && Wrap32(y * 3329 + scale / 2) == n;
    assert n % 0x1_0000_0000 == n;
  }

  // ---- vectors of lanes ----

  type Vec = seq<i16>

  function VAdd(a: Vec, b: Vec): (r: Vec)
    requires |a| == |b|
    ensures |r| == |a|
  {
    seq(|a|, i requires 0 <= i < |a| => Add(a[i], b[i]))
  }

  function VSub(a: Vec, b: Vec): (r: Vec)
    requires |a| == |b|
    ensures |r| == |a|
  {
    seq(|a|, i requires 0 <= i < |a| => Sub(a[i], b[i]))
  }

  function VMulLow(a: Vec, b: Vec): (r: Vec)
    requires |a| == |b|
    ensures |r| == |a|
  {
    seq(|a|, i requires 0 <= i < |a| => MulLow(a[i], b[i]))
  }

  /** The twiddled vector: `barrett_const_mul` under one broadcast zeta. */
  function VTwiddle(simd: Simd, a: Vec, k: nat): (r: Vec)
    requires k < 128
    ensures |r| == |a|
  {
    seq(|a|, i requires 0 <= i < |a| => ConstMulLane(simd, a[i], Zeta(k), ZetaBarrett(k)))
  }

  lemma VTwiddleAt(simd: Simd, a: Vec, k: nat, i: nat)
    requires k < 128 && i < |a|
    ensures VTwiddle(simd, a, k)[i] == Twiddle(k, a[i])
  {
    hide ConstMulLane, BarrettConstMul, Zeta, ZetaBarrett;
    ConstMulLaneIsScalar(simd, a[i], Zeta(k), ZetaBarrett(k));
  }

  /** `butterfly`: (a + t, a - t) for t = b * zeta. */
  function VButterfly(simd: Simd, a: Vec, b: Vec, k: nat): (r: (Vec, Vec))
    requires |a| == |b| && k < 128
    ensures |r.0| == |r.1| == |a|
  {
    var t := VTwiddle(simd, b, k);
    (VAdd(a, t), VSub(a, t))
  }

  /** Lane `i` of a vector butterfly is the scalar butterfly. */
  lemma VButterflyAt(simd: Simd, a: Vec, b: Vec, k: nat, i: nat)
    requires |a| == |b| && k < 128 && i < |a|
    ensures VButterfly(simd, a, b, k).0[i] == Add(a[i], Twiddle(k, b[i]))
    ensures VButterfly(simd, a, b, k).1[i] == Sub(a[i], Twiddle(k, b[i]))
  {
    hide VTwiddle, Twiddle, Add, Sub;
    VTwiddleAt(simd, b, k, i);
  }
}
