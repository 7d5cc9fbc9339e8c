/** AVX2's accumulated base multiplication (`src/algebraic/poly/arch/avx2.rs`): the
    accumulator planes hold each block of sixteen pairs in unpack order, and the packing
    of the reduction restores it. The result is the scalar representative exactly. */
module Avx2BaseMul {
  import opened Words
  import opened Field
  import opened BaseMul
  import opened Lanes
  import opened Registers

  // ---- instructions ----

  /** The source lane of unpacked lane `t`, in the low half of each 128-bit half. */
  function UnpackSource(t: nat): (s: nat)
    requires t < 16
    ensures s < 12
  {
    t / 8 * 8 + t % 8 / 2
  }

  /** Lane `t` of an interleaving of two vectors, within each 128-bit half. */
  function UnpackLane(x: Vec, y: Vec, t: nat, half: nat): i16
    requires |x| == |y| == 16 && t < 16 && half <= 4
  {
    if t % 2 == 0 then x[UnpackSource(t) + half] else y[UnpackSource(t) + half]
  }

  /** `unpacklo`: the first four lanes of each half of both operands, alternating. */
  function UnpackLow(x: Vec, y: Vec): (r: Vec)
    requires |x| == |y| == 16
    ensures |r| == 16
  {
    seq(16, t requires 0 <= t < 16 => UnpackLane(x, y, t, 0))
  }

  /** `unpackhi`: the last four lanes of each half. */
  function UnpackHigh(x: Vec, y: Vec): (r: Vec)
    requires |x| == |y| == 16
    ensures |r| == 16
  {
    seq(16, t requires 0 <= t < 16 => UnpackLane(x, y, t, 4))
  }

  /** Two 16-bit lanes read as one 32-bit lane. */
  function Combine(low: i16, high: i16): i32 {
    (high as int) * 0x1_0000 + (low as int) % 0x1_0000
  }

  /** A vector of sixteen 16-bit lanes as eight 32-bit lanes. */
  function As32(v: Vec): (r: seq<i32>)
    requires |v| == 16
    ensures |r| == 8
  {
    seq(8, i requires 0 <= i < 8 => Combine(v[2 * i], v[2 * i + 1]))
  }

  function VMulHigh(a: Vec, b: Vec): (r: Vec)
    requires |a| == |b|
    ensures |r| == |a|
  {
    seq(|a|, i requires 0 <= i < |a| => MulHigh(a[i], b[i]))
  }

  /** `widening_mul_lo` and `widening_mul_hi`. */
  function WideningLow(a: Vec, b: Vec): (r: seq<i32>)
    requires |a| == |b| == 16
    ensures |r| == 8
  {
    As32(UnpackLow(VMulLow(a, b), VMulHigh(a, b)))
  }

  function WideningHigh(a: Vec, b: Vec): (r: seq<i32>)
    requires |a| == |b| == 16
    ensures |r| == 8
  {
    As32(UnpackHigh(VMulLow(a, b), VMulHigh(a, b)))
  }

  /** The low and high halves of a product recombine to the product. */
  lemma HalvesRecombine(a: i16, b: i16)
    ensures Combine(MulLow(a, b), MulHigh(a, b)) == WideningMul(a, b)
  {
    RecombineInt(WideningMul(a, b));
  }

  lemma RecombineInt(n: int)
    ensures n / 0x1_0000 * 0x1_0000 + Wrap16(n) % 0x1_0000 == n
  {
  }

  /** The pair lane `i` of a low or high unpack comes from. */
  function LowSource(i: nat): (s: nat)
    requires i < 8
    ensures s < 12
  {
    i / 4 * 8 + i % 4
  }

  lemma WideningAt(a: Vec, b: Vec, i: nat)
    requires |a| == |b| == 16 && i < 8
    ensures WideningLow(a, b)[i] == WideningMul(a[LowSource(i)], b[LowSource(i)])
    ensures WideningHigh(a, b)[i] == WideningMul(a[LowSource(i) + 4], b[LowSource(i) + 4])
  {
    hide MulLow, MulHigh, Combine, WideningMul, UnpackLow, UnpackHigh, LowSource;
    var s := LowSource(i);
    HalvesRecombine(a[s], b[s]);
    HalvesRecombine(a[s + 4], b[s + 4]);
    UnpackedPair(VMulLow(a, b), VMulHigh(a, b), i);
  }

  lemma UnpackedPair(x: Vec, y: Vec, i: nat)
    requires |x| == |y| == 16 && i < 8
    ensures UnpackLow(x, y)[2 * i] == x[LowSource(i)] && UnpackLow(x, y)[2 * i + 1] == y[LowSource(i)]
    ensures UnpackHigh(x, y)[2 * i] == x[LowSource(i) + 4] && UnpackHigh(x, y)[2 * i + 1] == y[LowSource(i) + 4]
  {
    UnpackedLanes(x, y, i, 0);
    UnpackedLanes(x, y, i, 4);
    hide LowSource, UnpackLane;
  }

  lemma UnpackedLanes(x: Vec, y: Vec, i: nat, half: nat)
    requires |x| == |y| == 16 && i < 8 && half <= 4
    ensures UnpackLane(x, y, 2 * i, half) == x[LowSource(i) + half]
    ensures UnpackLane(x, y, 2 * i + 1, half) == y[LowSource(i) + half]
  {
    LaneSource(i);
    hide LowSource, UnpackSource;
  }

  lemma LaneSource(i: nat)
    requires i < 8
    ensures 2 * i % 2 == 0 && (2 * i + 1) % 2 == 1
    ensures UnpackSource(2 * i) == LowSource(i) == UnpackSource(2 * i + 1)
  {
    var q, r := i / 4, i % 4;
    EightParts(2 * i, q, 2 * r);
    EightParts(2 * i + 1, q, 2 * r + 1);
  }

  lemma EightParts(t: nat, q: nat, r: nat)
    requires t == 8 * q + r && r < 8
    ensures t / 8 == q && t % 8 == r
  {
  }

  /** One wrapping 32-bit addition. */
  function Add32(a: i32, b: i32): i32 {
    Wrap32((a as int) + (b as int))
  }

  function VAdd32(a: seq<i32>, b: seq<i32>): (r: seq<i32>)
    requires |a| == |b|
    ensures |r| == |a|
  {
    seq(|a|, i requires 0 <= i < |a| => Add32(a[i], b[i]))
  }

  // ---- the permuted planes ----

  /** The unpack order of a block of sixteen: 0-3, 8-11, 4-7, 12-15. */
  function UnpackOrder(i: nat): (t: nat)
    requires i < 16
    ensures t < 16
  {
    if i < 8 then LowSource(i) else LowSource(i - 8) + 4
  }

  /** The pair a plane position holds. */
  function PairAt(x: nat): (pair: nat)
    requires x < 128
    ensures pair < 128
  {
    x / 16 * 16 + UnpackOrder(x % 16)
  }

  lemma PairInBlock(b: nat, i: nat)
    requires b < 8 && i < 16
    ensures PairAt(16 * b + i) == 16 * b + UnpackOrder(i)
  {
    hide UnpackOrder;
    assert (16 * b + i) / 16 == b && (16 * b + i) % 16 == i;
  }

  /** The register lane `packs` draws lane `t` from. */
  function PackOrder(t: nat): (i: nat)
    requires t < 16
    ensures i < 16
  {
    if t % 8 < 4 then t / 8 * 4 + t % 8 else 8 + t / 8 * 4 + (t % 8 - 4)
  }

  /** Packing inverts the unpack order. */
  lemma PackInvertsUnpack(t: nat)
    requires t < 16
    ensures UnpackOrder(PackOrder(t)) == t
  {
  }

  /** The gain of one component in block `b`, low and high registers. */
  function EvenGainLow(a0: Vec, a1: Vec, b0: Vec, c: Vec): (r: seq<i32>)
    requires |a0| == |a1| == |b0| == |c| == 16
    ensures |r| == 8
  {
    VAdd32(WideningLow(a0, b0), WideningLow(a1, c))
  }

  function EvenGainHigh(a0: Vec, a1: Vec, b0: Vec, c: Vec): (r: seq<i32>)
    requires |a0| == |a1| == |b0| == |c| == 16
    ensures |r| == 8
  {
    VAdd32(WideningHigh(a0, b0), WideningHigh(a1, c))
  }

  lemma GainAt(a0: Vec, a1: Vec, b0: Vec, c: Vec, i: nat)
    requires |a0| == |a1| == |b0| == |c| == 16 && i < 8
    ensures var s := LowSource(i);
            && EvenGainLow(a0, a1, b0, c)[i] == Wrap32(WideningMul(a0[s], b0[s]) + WideningMul(a1[s], c[s]))
            && EvenGainHigh(a0, a1, b0, c)[i] == Wrap32(WideningMul(a0[s + 4], b0[s + 4]) + WideningMul(a1[s + 4], c[s + 4]))
  {
    hide WideningLow, WideningHigh, Wrap32;
    WideningAt(a0, b0, i);
    WideningAt(a1, c, i);
  }

  /** Read, add eight 32-bit lanes, write back. */
  method AddInto(plane: array<i32>, at: nat, gain: seq<i32>)
    requires at + 8 <= plane.Length && |gain| == 8
    modifies plane
    ensures forall i | 0 <= i < 8 :: plane[at + i] == Add32(old(plane[at + i]), gain[i])
    ensures forall x | 0 <= x < plane.Length && !(at <= x < at + 8) :: plane[x] == old(plane[x])
  {
    hide Add32;
    ghost var was := plane[..];
    var sum := VAdd32(plane[at..at + 8], gain);
    assert forall j | 0 <= j < 8 :: sum[j] == Add32(was[at + j], gain[j]);
    var i: nat := 0;
    while i < 8
      invariant i <= 8
      invariant forall j | 0 <= j < i :: plane[at + j] == sum[j]
      invariant forall x | 0 <= x < plane.Length && !(at <= x < at + i) :: plane[x] == old(plane[x])
    {
      plane[at + i] := sum[i];
      i := i + 1;
    }
  }

  /** One block of one plane. */
  method AddBlock(plane: array<i32>, b: nat, low: seq<i32>, high: seq<i32>)
    requires plane.Length == 128 && b < 8 && |low| == |high| == 8
    modifies plane
    ensures forall i | 0 <= i < 16 :: plane[16 * b + i] == Add32(old(plane[16 * b + i]), (low + high)[i])
    ensures forall x | 0 <= x < 128 && !(16 * b <= x < 16 * b + 16) :: plane[x] == old(plane[x])
  {
    hide Add32;
    AddInto(plane, 16 * b, low);
    AddInto(plane, 16 * b + 8, high);
    forall i | 0 <= i < 16 ensures plane[16 * b + i] == Add32(old(plane[16 * b + i]), (low + high)[i]) {
      if i >= 8 {
        assert plane[16 * b + 8 + (i - 8)] == Add32(old(plane[16 * b + 8 + (i - 8)]), high[i - 8]);
      }
    }
  }

  /** One component's gain at plane position `x`, for the two operand pairings. */
  function Gain(f: TqWords, g0: seq<i16>, g1: seq<i16>, pair: nat): int
    requires |g0| == |g1| == 128 && pair < 128
  {
    WideningMul(f[pair], g0[pair]) + WideningMul(f[128 + pair], g1[pair])
  }

  lemma BlockGain(f: TqWords, g0: seq<i16>, g1: seq<i16>, b: nat, i: nat)
    requires |g0| == |g1| == 128 && b < 8 && i < 16
    ensures var at := 16 * b;
            var a0, a1, b0, c := f[at..at + 16], f[128 + at..128 + at + 16], g0[at..at + 16], g1[at..at + 16];
            (EvenGainLow(a0, a1, b0, c) + EvenGainHigh(a0, a1, b0, c))[i] == Wrap32(Gain(f, g0, g1, PairAt(at + i)))
  {
    hide EvenGainLow, EvenGainHigh, WideningMul, Wrap32, PairAt;
    var at := 16 * b;
    var a0, a1, b0, c := f[at..at + 16], f[128 + at..128 + at + 16], g0[at..at + 16], g1[at..at + 16];
    PairInBlock(b, i);
    GainAt(a0, a1, b0, c, if i < 8 then i else i - 8);
  }

  /** The planes of the accumulator, updated in place in unpack order. */
  class Avx2Accumulator {
    const even: array<i32>
    const odd: array<i32>

    ghost predicate Valid() {
      even.Length == odd.Length == 128 && even != odd
    }

    /** Position `x` holds the sums of pair `PairAt(x)`. */
    ghost predicate Holds(f: seq<TqWords>, g: seq<TqWords>, cache: seq<CacheWords>)
      requires |f| == |g| == |cache| && Valid()
      reads even, odd
    {
      forall x | 0 <= x < 128 :: even[x] == Wrap32(EvenSum(f, g, cache, PairAt(x))) && odd[x] == Wrap32(OddSum(f, g, PairAt(x)))
    }

    constructor ()
      ensures Valid() && fresh(even) && fresh(odd) && Holds([], [], [])
    {
      even := new i32[128](i => 0);
      odd := new i32[128](i => 0);
    }

    /** `basemul_accumulate`: eight blocks of sixteen pairs. */
    method Accumulate(ghost fs: seq<TqWords>, ghost gs: seq<TqWords>, ghost caches: seq<CacheWords>,
                      f: TqWords, g: TqWords, cache: CacheWords)
      requires Valid() && |fs| == |gs| == |caches| && Holds(fs, gs, caches)
      modifies even, odd
      ensures Holds(fs + [f], gs + [g], caches + [cache])
    {
      hide Wrap32, Add32, EvenGainLow, EvenGainHigh, Gain, PairAt, EvenSum, OddSum, PlaneGained, IsBlockGain;
      ghost var wasEven, wasOdd := even[..], odd[..];
      var b: nat := 0;
      NothingGained(wasEven, f, g[..128], cache);
      NothingGained(wasOdd, f, g[128..], g[..128]);
      while b < 8
        invariant b <= 8
        invariant PlaneGained(wasEven, even[..], f, g[..128], cache, 16 * b)
        invariant PlaneGained(wasOdd, odd[..], f, g[128..], g[..128], 16 * b)
      {
        var at := 16 * b;
        var a0, a1 := f[at..at + 16], f[128 + at..128 + at + 16];
        var b0, b1 := g[..128][at..at + 16], g[128..][at..at + 16];
        var c := cache[at..at + 16];
        ghost var beforeEven, beforeOdd := even[..], odd[..];
        BlockGains(f, g[..128], cache, b);
        BlockGains(f, g[128..], g[..128], b);
        AddBlock(even, b, EvenGainLow(a0, a1, b0, c), EvenGainHigh(a0, a1, b0, c));
        BlockGained(wasEven, beforeEven, even[..], f, g[..128], cache, b, EvenGainLow(a0, a1, b0, c) + EvenGainHigh(a0, a1, b0, c));
        AddBlock(odd, b, EvenGainLow(a0, a1, b1, b0), EvenGainHigh(a0, a1, b1, b0));
        BlockGained(wasOdd, beforeOdd, odd[..], f, g[128..], g[..128], b, EvenGainLow(a0, a1, b1, b0) + EvenGainHigh(a0, a1, b1, b0));
        b := b + 1;
      }
      SumsGained(fs, gs, caches, f, g, cache, wasEven, wasOdd, even[..], odd[..]);
    }

    /** `basemul_reduce`. */
    method Reduce(ghost fs: seq<TqWords>, ghost gs: seq<TqWords>, ghost caches: seq<CacheWords>) returns (h: array<i16>)
      requires Valid() && |fs| == |gs| == |caches| && Holds(fs, gs, caches)
      ensures h[..] == DotWords(fs, gs, caches)
    {
      hide Wrap32, MontgomeryReduce, PairAt, EvenSum, OddSum;
      h := new i16[256];
      ghost var evens := seq<i32>(128, i requires 0 <= i < 128 => Wrap32(EvenSum(fs, gs, caches, i)));
      ghost var odds := seq<i32>(128, i requires 0 <= i < 128 => Wrap32(OddSum(fs, gs, i)));
      ReducePlane(even, h, 0, evens);
      ReducePlane(odd, h, 128, odds);
      forall j | 0 <= j < 256 ensures h[j] == DotWord(fs, gs, caches, j) {
        if j < 128 {
          assert h[0 + j] == MontgomeryReduce(evens[j]);
        } else {
          assert h[128 + (j - 128)] == MontgomeryReduce(odds[j - 128]);
        }
      }
    }
  }

  /** The first `n` positions of a plane gained one component. */
  ghost predicate PlaneGained(was: seq<i32>, now: seq<i32>, f: TqWords, g0: seq<i16>, g1: seq<i16>, n: nat)
    requires |g0| == |g1| == 128
  {
    && |was| == |now| == 128 && n <= 128
    && (forall x | 0 <= x < n :: now[x] == Add32(was[x], Wrap32(Gain(f, g0, g1, PairAt(x)))))
    && (forall x | n <= x < 128 :: now[x] == was[x])
  }

  lemma NothingGained(was: seq<i32>, f: TqWords, g0: seq<i16>, g1: seq<i16>)
    requires |g0| == |g1| == |was| == 128
    ensures PlaneGained(was, was, f, g0, g1, 0)
  {
  }

  /** `gain` is what one component adds to the sixteen positions of block `b`. */
  ghost predicate IsBlockGain(f: TqWords, g0: seq<i16>, g1: seq<i16>, b: nat, gain: seq<i32>)
    requires |g0| == |g1| == 128 && b < 8
  {
    |gain| == 16 && forall i | 0 <= i < 16 :: gain[i] == Wrap32(Gain(f, g0, g1, PairAt(16 * b + i)))
  }

  lemma BlockGains(f: TqWords, g0: seq<i16>, g1: seq<i16>, b: nat)
    requires |g0| == |g1| == 128 && b < 8
    ensures var at := 16 * b;
            var a0, a1, b0, c := f[at..at + 16], f[128 + at..128 + at + 16], g0[at..at + 16], g1[at..at + 16];
            IsBlockGain(f, g0, g1, b, EvenGainLow(a0, a1, b0, c) + EvenGainHigh(a0, a1, b0, c))
  {
    hide EvenGainLow, EvenGainHigh, Gain, Wrap32, PairAt;
    var at := 16 * b;
    var a0, a1, b0, c := f[at..at + 16], f[128 + at..128 + at + 16], g0[at..at + 16], g1[at..at + 16];
    var gain := EvenGainLow(a0, a1, b0, c) + EvenGainHigh(a0, a1, b0, c);
    forall i | 0 <= i < 16 ensures gain[i] == Wrap32(Gain(f, g0, g1, PairAt(16 * b + i))) {
      BlockGain(f, g0, g1, b, i);
    }
  }

  lemma BlockGained(was: seq<i32>, before: seq<i32>, now: seq<i32>, f: TqWords, g0: seq<i16>, g1: seq<i16>, b: nat, gain: seq<i32>)
    requires |g0| == |g1| == 128 && b < 8 && |now| == 128 && PlaneGained(was, before, f, g0, g1, 16 * b)
    requires IsBlockGain(f, g0, g1, b, gain)
    requires forall i | 0 <= i < 16 :: now[16 * b + i] == Add32(before[16 * b + i], gain[i])
    requires forall x | 0 <= x < 128 && !(16 * b <= x < 16 * b + 16) :: now[x] == before[x]
    ensures PlaneGained(was, now, f, g0, g1, 16 * (b + 1))
  {
    hide Gain, Wrap32, PairAt, Add32;
    var at := 16 * b;
    forall x | 0 <= x < at + 16 ensures now[x] == Add32(was[x], Wrap32(Gain(f, g0, g1, PairAt(x)))) {
      if x >= at {
        var i := x - at;
        assert now[16 * b + i] == Add32(before[16 * b + i], gain[i]);
      }
    }
  }

  lemma GainIsTerm(f: TqWords, g: TqWords, cache: CacheWords, pair: nat)
    requires pair < 128
    ensures Gain(f, g[..128], cache, pair) == EvenTerm(f, g, cache, pair)
    ensures Gain(f, g[128..], g[..128], pair) == OddTerm(f, g, pair)
  {
    hide WideningMul;
  }

  lemma SumGained(fs: seq<TqWords>, gs: seq<TqWords>, caches: seq<CacheWords>, f: TqWords, g: TqWords, cache: CacheWords, pair: nat)
    requires |fs| == |gs| == |caches| && pair < 128
    ensures Add32(Wrap32(EvenSum(fs, gs, caches, pair)), Wrap32(Gain(f, g[..128], cache, pair)))
         == Wrap32(EvenSum(fs + [f], gs + [g], caches + [cache], pair))
    ensures Add32(Wrap32(OddSum(fs, gs, pair)), Wrap32(Gain(f, g[128..], g[..128], pair)))
         == Wrap32(OddSum(fs + [f], gs + [g], pair))
  {
    hide Wrap32, EvenSum, OddSum, EvenTerm, OddTerm, Gain;
    GainIsTerm(f, g, cache, pair);
    SumsExtend(fs, gs, caches, f, g, cache, pair);
    Wrap32Absorbs(EvenSum(fs, gs, caches, pair), EvenTerm(f, g, cache, pair));
    Wrap32Absorbs(OddSum(fs, gs, pair), OddTerm(f, g, pair));
  }

  lemma SumsGained(fs: seq<TqWords>, gs: seq<TqWords>, caches: seq<CacheWords>, f: TqWords, g: TqWords, cache: CacheWords,
                   wasEven: seq<i32>, wasOdd: seq<i32>, even: seq<i32>, odd: seq<i32>)
    requires |fs| == |gs| == |caches|
    requires PlaneGained(wasEven, even, f, g[..128], cache, 128) && PlaneGained(wasOdd, odd, f, g[128..], g[..128], 128)
    requires forall x | 0 <= x < 128 :: wasEven[x] == Wrap32(EvenSum(fs, gs, caches, PairAt(x)))
    requires forall x | 0 <= x < 128 :: wasOdd[x] == Wrap32(OddSum(fs, gs, PairAt(x)))
    ensures forall x | 0 <= x < 128 :: even[x] == Wrap32(EvenSum(fs + [f], gs + [g], caches + [cache], PairAt(x)))
    ensures forall x | 0 <= x < 128 :: odd[x] == Wrap32(OddSum(fs + [f], gs + [g], PairAt(x)))
  {
    hide Wrap32, PairAt, EvenSum, OddSum, Gain, Add32;
    forall x | 0 <= x < 128
      ensures even[x] == Wrap32(EvenSum(fs + [f], gs + [g], caches + [cache], PairAt(x)))
      ensures odd[x] == Wrap32(OddSum(fs + [f], gs + [g], PairAt(x)))
    {
      SumGained(fs, gs, caches, f, g, cache, PairAt(x));
    }
  }

  // ---- the reduction ----

  /** `montgomery_reduce_wide` on one 32-bit lane. */
  function MontgomeryWide(a: i32): (r: int)
    ensures r == MontgomeryReduce(a)
  {
    WideIsScalar(a);
    var m := Wrap16(Wrap32(a * QINV));
    Wrap32(a - Wrap32(m * 3329)) / 0x1_0000
  }

  lemma WideIsScalar(a: i32)
    ensures Wrap32(a - Wrap32(Wrap16(Wrap32(a * QINV)) * 3329)) / 0x1_0000 == MontgomeryReduce(a)
  {
    LowHalfOfProduct(a);
    var m: int := MontgomeryFactor(a);
    assert Wrap32(m * 3329) == m * 3329;
  }

  lemma WrapShift(x: int, k: int)
    ensures Wrap16(x + 0x1_0000 * k) == Wrap16(x)
  {
    ShiftedRemainder(x + 0x8000, k);
  }

  lemma ShiftedRemainder(x: int, k: int)
    ensures (x + 0x1_0000 * k) % 0x1_0000 == x % 0x1_0000
  {
    var q := (x + 0x1_0000 * k) / 0x1_0000 - k;
    assert x == 0x1_0000 * q + (x + 0x1_0000 * k) % 0x1_0000;
  }

  lemma LowHalfOfProduct(a: int)
    ensures Wrap16(Wrap32(a * QINV)) == Wrap16(Wrap16(a) * QINV)
  {
    var p := a * QINV;
    var low: int := Wrap16(a);
    var t, u := (a - low) / 0x1_0000, (p - Wrap32(p)) / 0x1_0000_0000;
    assert a == low + 0x1_0000 * t && p == Wrap32(p) + 0x1_0000_0000 * u;
    hide Wrap16, Wrap32;
    var product: int := low * QINV;
    assert Wrap32(p) == product + 0x1_0000 * (t * QINV - 0x1_0000 * u);
    WrapShift(product, t * QINV - 0x1_0000 * u);
  }

  /** `packs`: within each half, four lanes of each operand, saturated to 16 bits. */
  function PackReduced(low: seq<i32>, high: seq<i32>): (r: Vec)
    requires |low| == |high| == 8
    ensures |r| == 16
  {
    seq(16, t requires 0 <= t < 16 =>
      Saturate16(MontgomeryWide(if t % 8 < 4 then low[t / 8 * 4 + t % 8] else high[t / 8 * 4 + (t % 8 - 4)])))
  }

  /** The packed lane `t` of block `b` reduces the position that holds pair
      `16 * b + t`; the saturation never fires. */
  lemma PackedLane(plane: seq<i32>, b: nat, t: nat)
    requires |plane| == 128 && b < 8 && t < 16
    ensures PairAt(16 * b + PackOrder(t)) == 16 * b + t
    ensures PackReduced(plane[16 * b..16 * b + 8], plane[16 * b + 8..16 * b + 16])[t] == MontgomeryReduce(plane[16 * b + PackOrder(t)])
  {
    hide MontgomeryReduce, PairAt, UnpackOrder, PackReduced;
    PairInBlock(b, PackOrder(t));
    PackInvertsUnpack(t);
    PackedFrom(plane[16 * b..16 * b + 8], plane[16 * b + 8..16 * b + 16], t);
  }

  lemma PackedFrom(low: seq<i32>, high: seq<i32>, t: nat)
    requires |low| == |high| == 8 && t < 16
    ensures PackReduced(low, high)[t] == MontgomeryReduce((low + high)[PackOrder(t)])
  {
    hide MontgomeryReduce, MontgomeryWide;
  }

  /** A plane that holds `sums` in unpack order reduces to `sums` in pair order. */
  lemma PackedBlock(plane: seq<i32>, sums: seq<i32>, b: nat, packed: Vec)
    requires |plane| == |sums| == 128 && b < 8 && forall x | 0 <= x < 128 :: plane[x] == sums[PairAt(x)]
    requires packed == PackReduced(plane[16 * b..16 * b + 8], plane[16 * b + 8..16 * b + 16])
    ensures forall t | 0 <= t < 16 :: packed[t] == MontgomeryReduce(sums[16 * b + t])
  {
    hide MontgomeryReduce, PackReduced, PairAt, PackOrder;
    forall t | 0 <= t < 16 ensures packed[t] == MontgomeryReduce(sums[16 * b + t]) {
      PackedLane(plane, b, t);
    }
  }

  /** `basemul_reduce` on one plane. */
  method ReducePlane(plane: array<i32>, h: array<i16>, at: nat, ghost sums: seq<i32>)
    requires plane.Length == |sums| == 128 && h.Length == 256 && at + 128 <= 256
    requires forall x | 0 <= x < 128 :: plane[x] == sums[PairAt(x)]
    modifies h
    ensures forall j | 0 <= j < 128 :: h[at + j] == MontgomeryReduce(sums[j])
    ensures forall x | 0 <= x < 256 && !(at <= x < at + 128) :: h[x] == old(h[x])
  {
    hide MontgomeryReduce, PackReduced, PairAt;
    var b: nat := 0;
    while b < 8
      invariant b <= 8
      invariant forall j | 0 <= j < 16 * b :: h[at + j] == MontgomeryReduce(sums[j])
      invariant forall x | 0 <= x < 256 && !(at <= x < at + 128) :: h[x] == old(h[x])
    {
      ghost var before := h[..];
      assert plane[..][16 * b..16 * b + 8] == plane[16 * b..16 * b + 8];
      assert plane[..][16 * b + 8..16 * b + 16] == plane[16 * b + 8..16 * b + 16];
      var packed := PackReduced(plane[16 * b..16 * b + 8], plane[16 * b + 8..16 * b + 16]);
      PackedBlock(plane[..], sums, b, packed);
      Store(h, at + 16 * b, packed);
      forall j | 0 <= j < 16 * b + 16 ensures h[at + j] == MontgomeryReduce(sums[j]) {
        if j >= 16 * b {
          var t := j - 16 * b;
          assert h[at + 16 * b + t] == packed[t] == MontgomeryReduce(sums[16 * b + t]);
        } else {
          assert before[at + j] == MontgomeryReduce(sums[j]);
        }
      }
      b := b + 1;
    }
  }

  /** Any run of accumulate calls followed by one reduce is the scalar dot product. */
  method AccumulatedDotAvx2(f: seq<TqWords>, g: seq<TqWords>, caches: seq<CacheWords>) returns (h: array<i16>)
    requires |f| == |g| == |caches|
    ensures h[..] == DotWords(f, g, caches)
  {
    var acc := new Avx2Accumulator();
    for j := 0 to |f|
      invariant acc.Valid() && fresh(acc.even) && fresh(acc.odd)
      invariant acc.Holds(f[..j], g[..j], caches[..j])
    {
      acc.Accumulate(f[..j], g[..j], caches[..j], f[j], g[j], caches[j]);
      assert f[..j] + [f[j]] == f[..j + 1] && g[..j] + [g[j]] == g[..j + 1] && caches[..j] + [caches[j]] == caches[..j + 1];
    }
    assert f[..|f|] == f && g[..|f|] == g && caches[..|f|] == caches;
    h := acc.Reduce(f, g, caches);
  }
}
