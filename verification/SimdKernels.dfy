/** The vector loops over whole elements (`src/algebraic/poly/arch/avx2.rs`,
    `src/algebraic/poly/arch/neon.rs`): split storage, base multiplication, compression,
    decompression and canonical form, with the register permutations each needs. */
module SimdKernels {
  import opened Words
  import opened Zq
  import B = Bits
  import opened Field
  import opened ZetaTables
  import opened NttSpec
  import opened BaseMul
  import opened Lanes
  import opened Registers
  import opened Avx2BaseMul

  // ---- permutations of whole registers ----

  /** `permute2x128` with controls 0x20 and 0x31: the low, or the high, halves of two registers. */
  function LowHalves<T>(x: seq<T>, y: seq<T>): (r: seq<T>)
    requires |x| == |y| == 16
    ensures |r| == 16
  {
    x[..8] + y[..8]
  }

  function HighHalves<T>(x: seq<T>, y: seq<T>): (r: seq<T>)
    requires |x| == |y| == 16
    ensures |r| == 16
  {
    x[8..] + y[8..]
  }

  /** `permute4x64` with control 0xD8: the two middle quarters change places. */
  function SwapQuarters<T>(x: seq<T>): (r: seq<T>)
    requires |x| == 16
    ensures |r| == 16
  {
    x[..4] + x[8..12] + x[4..8] + x[12..]
  }

  // ---- split storage ----

  /** `vst2q`: two registers, alternating. */
  function Zip(e: Vec, o: Vec): (r: Vec)
    requires |e| == |o|
    ensures |r| == 2 * |e|
  {
    seq(2 * |e|, i requires 0 <= i < 2 * |e| => if i % 2 == 0 then e[i / 2] else o[i / 2])
  }

  /** Two registers alternating, as they are stored: NEON in one interleaving store, AVX2
      by unpacking within halves and gathering the halves. */
  function InterleaveVectors(simd: Simd, e: Vec, o: Vec): (r: Vec)
    requires |e| == |o| == Width(simd)
    ensures |r| == 2 * Width(simd)
  {
    match simd
    case Neon => Zip(e, o)
    case Avx2 =>
      var low, high := UnpackLow(e, o), UnpackHigh(e, o);
      LowHalves(low, high) + HighHalves(low, high)
  }

  lemma ZipAt(e: Vec, o: Vec, p: nat)
    requires |e| == |o| && p < |e|
    ensures Zip(e, o)[2 * p] == e[p] && Zip(e, o)[2 * p + 1] == o[p]
  {
    assert (2 * p) % 2 == 0 && (2 * p) / 2 == p && (2 * p + 1) % 2 == 1 && (2 * p + 1) / 2 == p;
  }

  /** Pair `p` of the interleaving comes from lane `p` of both registers. */
  lemma InterleavedLane(simd: Simd, e: Vec, o: Vec, p: nat)
    requires |e| == |o| == Width(simd) && p < Width(simd)
    ensures InterleaveVectors(simd, e, o)[2 * p] == e[p] && InterleaveVectors(simd, e, o)[2 * p + 1] == o[p]
  {
    if simd.Neon? {
      ZipAt(e, o, p);
    } else {
      var i := if p < 4 then p else if p < 12 then p - 4 else p - 8;
      PairSource(p, i);
      UnpackedPair(e, o, i);
      hide UnpackLow, UnpackHigh, LowSource;
      GatheredAt(UnpackLow(e, o), UnpackHigh(e, o), 2 * p);
      GatheredAt(UnpackLow(e, o), UnpackHigh(e, o), 2 * p + 1);
      hide LowHalves, HighHalves;
    }
  }

  lemma GatheredAt(low: Vec, high: Vec, j: nat)
    requires |low| == |high| == 16 && j < 32
    ensures (LowHalves(low, high) + HighHalves(low, high))[j]
         == if j < 8 then low[j] else if j < 16 then high[j - 8] else if j < 24 then low[j - 8] else high[j - 16]
  {
  }

  lemma PairSource(p: nat, i: nat)
    requires p < 16 && i == if p < 4 then p else if p < 12 then p - 4 else p - 8
    ensures LowSource(i) == if p < 4 then p else if p < 8 then p - 4 else if p < 12 then p else p - 4
  {
  }

  /** A window of the interleaving of two halves. */
  lemma InterleavedWindow(simd: Simd, halves: seq<i16>, at: nat)
    requires |halves| == 256 && at + Width(simd) <= 128
    ensures var w := Width(simd);
      InterleaveVectors(simd, halves[at..at + w], halves[128 + at..128 + at + w]) == Interleave(halves)[2 * at..2 * at + 2 * w]
  {
    hide InterleaveVectors, Interleave;
    var w := Width(simd);
    var e, o := halves[at..at + w], halves[128 + at..128 + at + w];
    var left, right := InterleaveVectors(simd, e, o), Interleave(halves)[2 * at..2 * at + 2 * w];
    forall p | 0 <= p < w ensures left[2 * p] == right[2 * p] && left[2 * p + 1] == right[2 * p + 1] {
      InterleavedLane(simd, e, o, p);
      InterleaveAt(halves, at + p);
    }
    PairsDetermine(left, right, w);
  }

  /** `unpack`: evens-then-odds back to natural order. */
  method Unpack(simd: Simd, halves: seq<i16>) returns (natural: array<i16>)
    requires |halves| == 256
    ensures fresh(natural) && natural[..] == Interleave(halves)
  {
    hide Interleave, InterleaveVectors, Progress;
    natural := new i16[256](_ => 0);
    ghost var was, fin := natural[..], Interleave(halves);
    var w := Width(simd);
    var at: nat := 0;
    while at < 128
      invariant at <= 128 && at % w == 0 && natural[..] == Progress(was, fin, 2 * at)
    {
      var v := InterleaveVectors(simd, halves[at..at + w], halves[128 + at..128 + at + w]);
      InterleavedWindow(simd, halves, at);
      StoreNext(natural, 2 * at, v, was, fin);
      at := at + w;
    }
  }

  /** The byte shuffle of AVX2's `pack`, within each 128-bit half. */
  const DEINTERLEAVE: seq<nat> := [0, 1, 4, 5, 8, 9, 12, 13, 2, 3, 6, 7, 10, 11, 14, 15]

  /** Its bytes move in pairs, so it moves whole lanes. */
  function ShuffleHalf(x: Vec): (r: Vec)
    requires |x| == 8
    ensures |r| == 8
  {
    seq(8, t requires 0 <= t < 8 => x[DEINTERLEAVE[2 * t] / 2])
  }

  lemma ShuffleMovesPairs(t: nat)
    requires t < 8
    ensures DEINTERLEAVE[2 * t] % 2 == 0 && DEINTERLEAVE[2 * t + 1] == DEINTERLEAVE[2 * t] + 1
    ensures DEINTERLEAVE[2 * t] / 2 == if t < 4 then 2 * t else 2 * (t - 4) + 1
  {
  }

  /** One register's evens, then its odds. */
  function EvensThenOdds(x: Vec): (r: Vec)
    requires |x| == 16
    ensures |r| == 16
  {
    SwapQuarters(ShuffleHalf(x[..8]) + ShuffleHalf(x[8..]))
  }

  lemma EvensThenOddsAt(x: Vec, p: nat)
    requires |x| == 16 && p < 8
    ensures EvensThenOdds(x)[p] == x[2 * p] && EvensThenOdds(x)[8 + p] == x[2 * p + 1]
  {
    hide ShuffleHalf, SwapQuarters;
    SwappedHalves(ShuffleHalf(x[..8]), ShuffleHalf(x[8..]));
    if p < 4 {
      ShuffledHalfAt(x[..8], p);
    } else {
      ShuffledHalfAt(x[8..], p - 4);
    }
  }

  lemma SwappedHalves(low: Vec, high: Vec)
    requires |low| == |high| == 8
    ensures SwapQuarters(low + high) == (low[..4] + high[..4]) + (low[4..] + high[4..])
  {
  }

  lemma ShuffledHalfAt(x: Vec, t: nat)
    requires |x| == 8 && t < 4
    ensures ShuffleHalf(x)[t] == x[2 * t] && ShuffleHalf(x)[4 + t] == x[2 * t + 1]
  {
    ShuffleMovesPairs(t);
    ShuffleMovesPairs(4 + t);
    hide DEINTERLEAVE;
  }

  /** The even and the odd lanes of a window of two registers: NEON in one deinterleaving
      load, AVX2 by shuffles. */
  function Deinterleave(simd: Simd, window: Vec): (r: (Vec, Vec))
    requires |window| == 2 * Width(simd)
    ensures |r.0| == |r.1| == Width(simd)
  {
    match simd
    case Neon => (seq(8, i requires 0 <= i < 8 => window[2 * i]), seq(8, i requires 0 <= i < 8 => window[2 * i + 1]))
    case Avx2 =>
      var d0, d1 := EvensThenOdds(window[..16]), EvensThenOdds(window[16..]);
      (LowHalves(d0, d1), HighHalves(d0, d1))
  }

  lemma DeinterleavedLane(simd: Simd, window: Vec, p: nat)
    requires |window| == 2 * Width(simd) && p < Width(simd)
    ensures Deinterleave(simd, window).0[p] == window[2 * p] && Deinterleave(simd, window).1[p] == window[2 * p + 1]
  {
    if simd.Avx2? {
      hide EvensThenOdds;
      if p < 8 {
        EvensThenOddsAt(window[..16], p);
      } else {
        EvensThenOddsAt(window[16..], p - 8);
      }
    }
  }

  lemma DeinterleavedWindow(simd: Simd, natural: seq<i16>, at: nat)
    requires |natural| == 256 && at + Width(simd) <= 128
    ensures var w := Width(simd); var d := Deinterleave(simd, natural[2 * at..2 * at + 2 * w]);
      d.0 == Split(natural)[at..at + w] && d.1 == Split(natural)[128 + at..128 + at + w]
  {
    hide Deinterleave, Split;
    var w := Width(simd);
    var window := natural[2 * at..2 * at + 2 * w];
    var d, e, o := Deinterleave(simd, window), Split(natural)[at..at + w], Split(natural)[128 + at..128 + at + w];
    forall p | 0 <= p < w ensures d.0[p] == e[p] && d.1[p] == o[p] {
      DeinterleavedLane(simd, window, p);
      SplitAt(natural, at + p);
    }
  }

  /** `pack`: natural order to evens-then-odds. */
  method Pack(simd: Simd, natural: seq<i16>) returns (halves: array<i16>)
    requires |natural| == 256
    ensures fresh(halves) && halves[..] == Split(natural)
  {
    hide Split, Deinterleave, HalvesProgress;
    halves := new i16[256](_ => 0);
    ghost var was, fin := halves[..], Split(natural);
    var w := Width(simd);
    var at: nat := 0;
    while at < 128
      invariant at <= 128 && at % w == 0 && halves[..] == HalvesProgress(was, fin, at)
    {
      var (even, odd) := Deinterleave(simd, natural[2 * at..2 * at + 2 * w]);
      DeinterleavedWindow(simd, natural, at);
      StoreHalves(halves, at, even, odd, was, fin);
      at := at + w;
    }
  }

  // ---- base multiplication ----

  /** `fqmul` of two registers. */
  function VFqmul(simd: Simd, a: Vec, b: Vec): (r: Vec)
    requires |a| == |b|
    ensures |r| == |a|
  {
    seq(|a|, i requires 0 <= i < |a| => MulLane(simd, a[i], b[i]))
  }

  lemma VFqmulAt(simd: Simd, a: Vec, b: Vec, i: nat)
    requires |a| == |b| && i < |a|
    ensures VFqmul(simd, a, b)[i] == Mul(a[i], b[i])
  {
    hide MulLane, Mul;
    MulLaneIsScalar(simd, a[i], b[i]);
  }

  function Gammas(at: nat, w: nat): (r: Vec)
    requires at + w <= 128
    ensures |r| == w
  {
    seq<i16>(w, i requires 0 <= i < w => GammaMont(at + i))
  }

  /** One window of `multiply`: the words of both halves. */
  function MultiplyWindow(simd: Simd, f: seq<i16>, g: seq<i16>, at: nat, w: nat): (r: (Vec, Vec))
    requires |f| == |g| == 256 && at + w <= 128
    ensures |r.0| == |r.1| == w
  {
    var a0, a1 := f[at..at + w], f[128 + at..128 + at + w];
    var b0, b1 := g[at..at + w], g[128 + at..128 + at + w];
    (VAdd(VFqmul(simd, a0, b0), VFqmul(simd, VFqmul(simd, a1, b1), Gammas(at, w))),
     VAdd(VFqmul(simd, a0, b1), VFqmul(simd, a1, b0)))
  }

  lemma MultipliedLane(simd: Simd, f: seq<i16>, g: seq<i16>, at: nat, w: nat, i: nat)
    requires |f| == |g| == 256 && at + w <= 128 && i < w
    ensures MultiplyWindow(simd, f, g, at, w).0[i] == EvenWord(f, g, at + i)
    ensures MultiplyWindow(simd, f, g, at, w).1[i] == OddWord(f, g, at + i)
  {
    hide VFqmul, Mul, Add, GammaMont;
    var a0, a1 := f[at..at + w], f[128 + at..128 + at + w];
    var b0, b1 := g[at..at + w], g[128 + at..128 + at + w];
    VFqmulAt(simd, a0, b0, i);
    VFqmulAt(simd, a1, b1, i);
    VFqmulAt(simd, VFqmul(simd, a1, b1), Gammas(at, w), i);
    VFqmulAt(simd, a0, b1, i);
    VFqmulAt(simd, a1, b0, i);
  }

  lemma MultipliedWindow(simd: Simd, f: seq<i16>, g: seq<i16>, at: nat, w: nat)
    requires |f| == |g| == 256 && at + w <= 128
    ensures var h := MultiplyWords(f, g); var c := MultiplyWindow(simd, f, g, at, w);
      c.0 == h[at..at + w] && c.1 == h[128 + at..128 + at + w]
  {
    hide MultiplyWindow, EvenWord, OddWord;
    var c, e := MultiplyWindow(simd, f, g, at, w), MultiplyWords(f, g)[at..at + w];
    var o := MultiplyWords(f, g)[128 + at..128 + at + w];
    forall i | 0 <= i < w ensures c.0[i] == e[i] && c.1[i] == o[i] {
      MultipliedLane(simd, f, g, at, w, i);
    }
  }

  /** `multiply`. */
  method Multiply(simd: Simd, f: seq<i16>, g: seq<i16>) returns (h: array<i16>)
    requires |f| == |g| == 256
    ensures h[..] == MultiplyWords(f, g)
  {
    hide MultiplyWords, MultiplyWindow, HalvesProgress;
    h := new i16[256](_ => 0);
    ghost var was, fin := h[..], MultiplyWords(f, g);
    var w := Width(simd);
    var at: nat := 0;
    while at < 128
      invariant at <= 128 && at % w == 0 && h[..] == HalvesProgress(was, fin, at)
    {
      var (c0, c1) := MultiplyWindow(simd, f, g, at, w);
      MultipliedWindow(simd, f, g, at, w);
      StoreHalves(h, at, c0, c1, was, fin);
      at := at + w;
    }
  }

  // ---- narrowing two 32-bit registers ----

  /** `packus` within each half. */
  function PackUnsigned(low: seq<nat>, high: seq<nat>): (r: seq<nat>)
    requires |low| == |high| == 8
    ensures |r| == 16
  {
    SaturateAll(low[..4] + high[..4] + low[4..] + high[4..])
  }

  function SaturateAll(x: seq<nat>): (r: seq<nat>)
    ensures |r| == |x|
  {
    seq(|x|, i requires 0 <= i < |x| => SaturateU16(x[i]))
  }

  /** `pack_lanes`. */
  function PackLanes(low: seq<nat>, high: seq<nat>): (r: seq<nat>)
    requires |low| == |high| == 8
    ensures |r| == 16
  {
    SwapQuarters(PackUnsigned(low, high))
  }

  /** The permutation undoes the packing's interleaving of halves. */
  lemma PackLanesInOrder(low: seq<nat>, high: seq<nat>)
    requires |low| == |high| == 8
    requires (forall i | 0 <= i < 8 :: low[i] <= 0xFFFF) && forall i | 0 <= i < 8 :: high[i] <= 0xFFFF
    ensures PackLanes(low, high) == low + high
  {
    hide SaturateU16;
    assert SaturateAll(low[..4] + high[..4] + low[4..] + high[4..]) == low[..4] + high[..4] + low[4..] + high[4..];
  }

  // ---- exact division in 64-bit lanes ----

  /** `mul_epu32` by the multiplier, shifted down by 33: a 64-bit lane's low half, divided. */
  function DivideLow(v: nat): nat {
    v % 0x1_0000_0000 * 2580335 / 0x2_0000_0000
  }

  /** One 64-bit lane of `divide_by_q`: both halves divided and recombined. */
  function DividePair(v: nat): nat {
    var even, odd := DivideLow(v), DivideLow(v / 0x1_0000_0000);
    B.Or(even, odd * 0x1_0000_0000 % 0x1_0000_0000_0000_0000)
  }

  /** `divide_by_q` on eight 32-bit lanes. */
  function DivideVector(a: seq<nat>): (r: seq<nat>)
    requires |a| == 8
    ensures |r| == 8
  {
    seq(8, i requires 0 <= i < 8 =>
      var v := DividePair(a[i / 2 * 2] + 0x1_0000_0000 * a[i / 2 * 2 + 1]);
      if i % 2 == 0 then v % 0x1_0000_0000 else v / 0x1_0000_0000)
  }

  lemma PairDivided(low: nat, high: nat)
    requires low < 0x1_0000_0000 && high < 0x1_0000_0000
    ensures DividePair(low + 0x1_0000_0000 * high) == DivideLane(low) + 0x1_0000_0000 * DivideLane(high)
    ensures DivideLane(low) < 0x1_0000_0000 && DivideLane(high) < 0x1_0000_0000
  {
    var v := low + 0x1_0000_0000 * high;
    HalvesOf(low, high);
    assert DivideLow(v) == DivideLane(low) && DivideLow(v / 0x1_0000_0000) == DivideLane(high);
    hide DivideLow, DivideLane;
    QuotientFits(low);
    QuotientFits(high);
    Recombined(DivideLane(low), DivideLane(high));
  }

  lemma HalvesOf(low: nat, high: nat)
    requires low < 0x1_0000_0000 && high < 0x1_0000_0000
    ensures (low + 0x1_0000_0000 * high) % 0x1_0000_0000 == low && (low + 0x1_0000_0000 * high) / 0x1_0000_0000 == high
    ensures high % 0x1_0000_0000 == high
  {
  }

  lemma QuotientFits(n: nat)
    requires n < 0x1_0000_0000
    ensures DivideLane(n) < 0x1_0000_0000
  {
  }

  lemma Recombined(even: nat, odd: nat)
    requires even < 0x1_0000_0000 && odd < 0x1_0000_0000
    ensures B.Or(even, odd * 0x1_0000_0000 % 0x1_0000_0000_0000_0000) == even + 0x1_0000_0000 * odd
  {
    B.TwoTo32();
    B.OrDisjoint(even, odd, 32);
    hide B.Or, B.Pow2;
    assert odd * 0x1_0000_0000 % 0x1_0000_0000_0000_0000 == odd * 0x1_0000_0000;
  }

  lemma DivideVectorAt(a: seq<nat>, i: nat)
    requires |a| == 8 && i < 8 && forall j | 0 <= j < 8 :: a[j] < 0x1_0000_0000
    ensures DivideVector(a)[i] == DivideLane(a[i])
  {
    hide DividePair, DivideLane;
    PairDivided(a[i / 2 * 2], a[i / 2 * 2 + 1]);
    assert i / 2 * 2 == if i % 2 == 0 then i else i - 1;
  }

  // ---- compression ----

  /** The dividends (x << d) + q/2 of eight lanes. */
  function Dividends(x: seq<nat>, scale: nat): (r: seq<nat>)
    ensures |r| == |x|
  {
    seq(|x|, i requires 0 <= i < |x| => x[i] * scale + 1664)
  }

  /** The low d bits of every lane. */
  function Masked(x: seq<nat>, scale: nat): (r: seq<nat>)
    requires scale > 0
    ensures |r| == |x|
  {
    seq(|x|, i requires 0 <= i < |x| => x[i] % scale)
  }

  /** `canonical_lanes`. */
  function VCanonical(simd: Simd, v: Vec): (r: seq<nat>)
    ensures |r| == |v|
    ensures forall i | 0 <= i < |v| :: r[i] == Value(v[i])
  {
    seq(|v|, i requires 0 <= i < |v| => CanonicalAsNat(simd, v[i]))
  }

  /** One register of `compress`. */
  function VCompress(simd: Simd, v: Vec, scale: nat): (r: seq<nat>)
    requires |v| == Width(simd) && 1 < scale <= 0x1000
    ensures |r| == |v|
  {
    match simd
    case Neon => seq(8, i requires 0 <= i < 8 => CompressLane(Neon, v[i], scale))
    case Avx2 =>
      var x := VCanonical(Avx2, v);
      PackLanes(Masked(DivideVector(Dividends(x[..8], scale)), scale), Masked(DivideVector(Dividends(x[8..], scale)), scale))
  }

  /** Eight lanes divided and masked are eight compressed lanes. */
  lemma HalfCompressed(v: Vec, x: seq<nat>, scale: nat)
    requires |v| == |x| == 8 && 1 < scale <= 0x1000 && forall i | 0 <= i < 8 :: x[i] == Value(v[i])
    ensures var r := Masked(DivideVector(Dividends(x, scale)), scale);
      forall i | 0 <= i < 8 :: r[i] == Compress(v[i], scale) && r[i] <= 0xFFFF
  {
    var a := Dividends(x, scale);
    hide Value, Compress, DivideVector, DivideLane;
    forall i | 0 <= i < 8 ensures a[i] == x[i] * scale + 1664 && a[i] < 0x1_0000_0000 {
      ProductBound(x[i], scale, 3328, 0x1000);
    }
    var r := Masked(DivideVector(a), scale);
    forall i | 0 <= i < 8 ensures r[i] == Compress(v[i], scale) && r[i] <= 0xFFFF {
      DivideVectorAt(a, i);
      CompressLaneIsScalar(Avx2, v[i], scale);
      CompressLaneDivides(v[i], x[i], scale);
    }
  }

  lemma CompressLaneDivides(a: i16, x: nat, scale: nat)
    requires 1 < scale <= 0x1000 && x == Value(a)
    ensures CompressLane(Avx2, a, scale) == DivideLane(x * scale + 1664) % scale
  {
    hide Value;
  }

  lemma CompressedVector(simd: Simd, v: Vec, scale: nat)
    requires |v| == Width(simd) && 1 < scale <= 0x1000
    ensures forall i | 0 <= i < |v| :: VCompress(simd, v, scale)[i] == Compress(v[i], scale)
  {
    hide Compress, CompressLane, Value, DivideVector, Dividends, Masked, PackLanes;
    match simd
    case Neon =>
      forall i | 0 <= i < 8 ensures VCompress(Neon, v, scale)[i] == Compress(v[i], scale) {
        CompressLaneIsScalar(Neon, v[i], scale);
      }
    case Avx2 =>
      var x := VCanonical(Avx2, v);
      HalfCompressed(v[..8], x[..8], scale);
      HalfCompressed(v[8..], x[8..], scale);
      var low, high := Masked(DivideVector(Dividends(x[..8], scale)), scale), Masked(DivideVector(Dividends(x[8..], scale)), scale);
      PackLanesInOrder(low, high);
      assert VCompress(Avx2, v, scale) == low + high;
      assert v == v[..8] + v[8..];
  }

  /** The widths NEON has a multiplier for. */
  predicate NeonCompresses(d: nat) {
    d == 1 || d == 4 || d == 5 || d == 10 || d == 11
  }

  /** `compress` on either instruction set, with NEON's fall-back to the scalar map. */
  method CompressElement(simd: Simd, f: RqWords, d: nat) returns (out: array<nat>)
    requires 1 < B.Pow2(d) <= 0x1000
    ensures out[..] == CompressAll(f, B.Pow2(d))
  {
    hide B.Pow2, Compress, VCompress, Progress;
    var scale := B.Pow2(d);
    if simd.Neon? && !NeonCompresses(d) {
      out := new nat[256](i requires 0 <= i < 256 => Compress(f[i], scale));
      return;
    }
    out := new nat[256](_ => 0);
    ghost var was, fin := out[..], CompressAll(f, scale);
    var w := Width(simd);
    var at: nat := 0;
    while at < 256
      invariant at <= 256 && at % w == 0 && out[..] == Progress(was, fin, at)
    {
      var v := VCompress(simd, f[at..at + w], scale);
      CompressedVector(simd, f[at..at + w], scale);
      assert v == fin[at..at + w];
      StoreNext(out, at, v, was, fin);
      at := at + w;
    }
  }

  // ---- decompression ----

  /** One register of `decompress`. */
  function VDecompress(simd: Simd, y: seq<nat>, scale: nat): (r: Vec)
    requires 1 < scale <= 0x1000 && forall i | 0 <= i < |y| :: y[i] < scale
    ensures |r| == |y|
  {
    seq(|y|, i requires 0 <= i < |y| => DecompressLane(simd, y[i], scale))
  }

  lemma DecompressedVector(simd: Simd, y: seq<nat>, scale: nat)
    requires 1 < scale <= 0x1000 && scale % 2 == 0 && forall i | 0 <= i < |y| :: y[i] < scale
    ensures forall i | 0 <= i < |y| :: VDecompress(simd, y, scale)[i] == Decompress(y[i], scale)
  {
    hide DecompressLane, Decompress;
    forall i | 0 <= i < |y| ensures VDecompress(simd, y, scale)[i] == Decompress(y[i], scale) {
      DecompressLaneIsScalar(simd, y[i], scale);
    }
  }

  /** `decompress`. */
  method DecompressElement(simd: Simd, values: seq<nat>, scale: nat) returns (out: array<i16>)
    requires |values| == 256 && 1 < scale <= 0x1000 && scale % 2 == 0 && forall i | 0 <= i < 256 :: values[i] < scale
    ensures out.Length == 256 && out[..] == DecompressAll(values, scale)
  {
    hide Decompress, VDecompress, Progress;
    out := new i16[256](_ => 0);
    ghost var was, fin := out[..], DecompressAll(values, scale);
    var w := Width(simd);
    var at: nat := 0;
    while at < 256
      invariant at <= 256 && at % w == 0 && out.Length == 256 && out[..] == Progress(was, fin, at)
    {
      var y := values[at..at + w];
      var v := VDecompress(simd, y, scale);
      DecompressedVector(simd, y, scale);
      assert v == fin[at..at + w];
      StoreNext(out, at, v, was, fin);
      at := at + w;
    }
  }

  // ---- canonical form ----

  /** The canonical representatives, still in split storage. */
  function CanonicalHalves(h: TqWords): (c: TqWords)
  {
    hide Residue;
    seq(256, i requires 0 <= i < 256 => Residue(h[i]))
  }

  lemma CanonicalInterleaves(h: TqWords)
    ensures Interleave(CanonicalHalves(h)) == StoredResidues(h)
  {
    hide Residue;
    forall i | 0 <= i < 128
      ensures Interleave(CanonicalHalves(h))[2 * i] == StoredResidues(h)[2 * i]
      ensures Interleave(CanonicalHalves(h))[2 * i + 1] == StoredResidues(h)[2 * i + 1]
    {
      InterleaveAt(CanonicalHalves(h), i);
      ResiduesInterleaveAt(h, i);
    }
    PairsDetermine<int>(Interleave(CanonicalHalves(h)), StoredResidues(h), 128);
  }

  /** One register of canonical lanes. */
  function CanonicalRegister(simd: Simd, h: TqWords, at: nat): (r: Vec)
    requires at + Width(simd) <= 256
    ensures r == CanonicalHalves(h)[at..at + Width(simd)]
  {
    hide Residue;
    var x := VCanonical(simd, h[at..at + Width(simd)]);
    assert forall i | 0 <= i < Width(simd) :: x[i] == CanonicalHalves(h)[at + i];
    x
  }

  /** Both halves' registers reduced and interleaved, as unsigned lanes. */
  function CanonicalWindow(simd: Simd, h: TqWords, at: nat): (r: seq<nat>)
    requires at + Width(simd) <= 128
    ensures r == StoredResidues(h)[2 * at..2 * at + 2 * Width(simd)]
  {
    hide Interleave, InterleaveVectors, CanonicalHalves, StoredResidues;
    CanonicalInterleaves(h);
    InterleavedWindow(simd, CanonicalHalves(h), at);
    InterleaveVectors(simd, CanonicalRegister(simd, h, at), CanonicalRegister(simd, h, 128 + at))
  }

  /** `canonical`: reduce both halves' registers, interleave, store. */
  method Canonical(simd: Simd, h: TqWords) returns (natural: array<nat>)
    ensures fresh(natural) && natural[..] == StoredResidues(h)
  {
    hide Progress, CanonicalWindow, StoredResidues;
    natural := new nat[256](_ => 0);
    ghost var was, fin: seq<nat> := natural[..], StoredResidues(h);
    var w := Width(simd);
    var at: nat := 0;
    while at < 128
      invariant at <= 128 && at % w == 0 && natural[..] == Progress(was, fin, 2 * at)
    {
      StoreNext(natural, 2 * at, CanonicalWindow(simd, h, at), was, fin);
      at := at + w;
    }
  }
}
