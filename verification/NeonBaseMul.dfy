/** NEON's accumulated base multiplication (`src/algebraic/poly/arch/neon.rs`): widening
    multiply-accumulates into the shared accumulator, four 32-bit lanes at a time, and one
    narrowing reduction. The planes stay in pair order. */
module NeonBaseMul {
  import opened Words
  import opened Field
  import opened BaseMul
  import opened Lanes
  import opened Registers

  /** `vmlal`: widening multiply-accumulate. */
  function VMlal(acc: seq<i32>, a: Vec, b: Vec): (r: seq<i32>)
    requires |acc| == |a| == |b|
    ensures |r| == |acc|
  {
    seq(|acc|, i requires 0 <= i < |acc| => Wrap32(acc[i] + WideningMul(a[i], b[i])))
  }

  /** A plane after one component: both products added, wrapping. */
  function GainedPlane(was: seq<i32>, f: TqWords, g0: seq<i16>, g1: seq<i16>): (r: seq<i32>)
    requires |was| == |g0| == |g1| == 128
    ensures |r| == 128
  {
    seq(128, i requires 0 <= i < 128 => GainedLane(was[i], f[i], g0[i], f[128 + i], g1[i]))
  }

  function GainedLane(sum: i32, a: i16, b: i16, c: i16, d: i16): i32 {
    Wrap32(sum + (WideningMul(a, b) + WideningMul(c, d)))
  }

  /** Four lanes of a plane through both multiply-accumulates. */
  function Accumulated(was: seq<i32>, f: TqWords, g0: seq<i16>, g1: seq<i16>, at: nat): (r: seq<i32>)
    requires |was| == |g0| == |g1| == 128 && at + 4 <= 128
    ensures |r| == 4
  {
    VMlal(VMlal(was[at..at + 4], f[at..at + 4], g0[at..at + 4]), f[128 + at..132 + at], g1[at..at + 4])
  }

  /** Only the last wrap matters. */
  lemma Wrap32Inner(x: int, y: int)
    ensures Wrap32(Wrap32(x) + y) == Wrap32(x + y)
  {
    var k := (x - Wrap32(x)) / 0x1_0000_0000;
    hide Wrap32;
    Wrap32Shift(Wrap32(x) + y, k);
  }

  lemma AccumulatedIsGained(was: seq<i32>, f: TqWords, g0: seq<i16>, g1: seq<i16>, at: nat)
    requires |was| == |g0| == |g1| == 128 && at + 4 <= 128
    ensures Accumulated(was, f, g0, g1, at) == GainedPlane(was, f, g0, g1)[at..at + 4]
  {
    hide Wrap32, WideningMul, Accumulated;
    var registers, fin := Accumulated(was, f, g0, g1, at), GainedPlane(was, f, g0, g1)[at..at + 4];
    forall i | 0 <= i < 4 ensures registers[i] == fin[i] {
      AccumulatedAt(was, f, g0, g1, at, i);
      Wrap32Inner(was[at + i] + WideningMul(f[at + i], g0[at + i]), WideningMul(f[128 + at + i], g1[at + i]));
    }
  }

  lemma AccumulatedAt(was: seq<i32>, f: TqWords, g0: seq<i16>, g1: seq<i16>, at: nat, i: nat)
    requires |was| == |g0| == |g1| == 128 && at + 4 <= 128 && i < 4
    ensures Accumulated(was, f, g0, g1, at)[i]
         == Wrap32(Wrap32(was[at + i] + WideningMul(f[at + i], g0[at + i])) + WideningMul(f[128 + at + i], g1[at + i]))
  {
    hide Wrap32, WideningMul;
  }

  /** One window of one plane: load, accumulate and store its two registers. */
  method AccumulateWindow(plane: array<i32>, at: nat, f: TqWords, g0: seq<i16>, g1: seq<i16>, ghost was: seq<i32>)
    requires plane.Length == |was| == |g0| == |g1| == 128 && at + 8 <= 128
    requires plane[..] == Progress(was, GainedPlane(was, f, g0, g1), at)
    modifies plane
    ensures plane[..] == Progress(was, GainedPlane(was, f, g0, g1), at + 8)
  {
    hide VMlal, GainedPlane, Progress;
    ghost var fin := GainedPlane(was, f, g0, g1);
    ProgressTail(was, fin, at, 8);
    ghost var window := was[at..at + 8];
    var low, high := plane[at..at + 4], plane[at + 4..at + 8];
    assert plane[..][at..at + 8] == window && low == window[..4] && high == window[4..];
    assert was[at..at + 4] == window[..4] && was[at + 4..at + 8] == window[4..];
    low := VMlal(low, f[at..at + 4], g0[at..at + 4]);
    high := VMlal(high, f[at + 4..at + 8], g0[at + 4..at + 8]);
    low := VMlal(low, f[128 + at..132 + at], g1[at..at + 4]);
    high := VMlal(high, f[132 + at..136 + at], g1[at + 4..at + 8]);
    AccumulatedIsGained(was, f, g0, g1, at);
    AccumulatedIsGained(was, f, g0, g1, at + 4);
    StoreNext(plane, at, low, was, fin);
    StoreNext(plane, at + 4, high, was, fin);
  }

  lemma GainIsSum(fs: seq<TqWords>, gs: seq<TqWords>, caches: seq<CacheWords>, f: TqWords, g: TqWords, cache: CacheWords, i: nat)
    requires |fs| == |gs| == |caches| && i < 128
    ensures GainedLane(Wrap32(EvenSum(fs, gs, caches, i)), f[i], g[i], f[128 + i], cache[i])
         == Wrap32(EvenSum(fs + [f], gs + [g], caches + [cache], i))
    ensures GainedLane(Wrap32(OddSum(fs, gs, i)), f[i], g[128 + i], f[128 + i], g[i])
         == Wrap32(OddSum(fs + [f], gs + [g], i))
  {
    hide Wrap32, EvenSum, OddSum, WideningMul;
    SumsExtend(fs, gs, caches, f, g, cache, i);
    Wrap32Inner(EvenSum(fs, gs, caches, i), EvenTerm(f, g, cache, i));
    Wrap32Inner(OddSum(fs, gs, i), OddTerm(f, g, i));
  }

  /** `basemul_accumulate`: one more component, sixteen windows of eight pairs. */
  method Accumulate(acc: ProductAccumulator, ghost fs: seq<TqWords>, ghost gs: seq<TqWords>, ghost caches: seq<CacheWords>,
                    f: TqWords, g: TqWords, cache: CacheWords)
    requires acc.Valid() && |fs| == |gs| == |caches| && acc.Holds(fs, gs, caches)
    modifies acc.even, acc.odd
    ensures acc.Holds(fs + [f], gs + [g], caches + [cache])
  {
    hide Wrap32, EvenSum, OddSum, GainedLane, Progress, GainedPlane;
    ghost var wasEven, wasOdd := acc.even[..], acc.odd[..];
    var g0, g1 := g[..128], g[128..];
    var at: nat := 0;
    while at < 128
      invariant at <= 128 && at % 8 == 0
      invariant acc.even[..] == Progress(wasEven, GainedPlane(wasEven, f, g0, cache), at)
      invariant acc.odd[..] == Progress(wasOdd, GainedPlane(wasOdd, f, g1, g0), at)
    {
      AccumulateWindow(acc.even, at, f, g0, cache, wasEven);
      AccumulateWindow(acc.odd, at, f, g1, g0, wasOdd);
      at := at + 8;
    }
    PlanesHold(fs, gs, caches, f, g, cache, wasEven, wasOdd, acc.even[..], acc.odd[..]);
  }

  lemma PlanesHold(fs: seq<TqWords>, gs: seq<TqWords>, caches: seq<CacheWords>, f: TqWords, g: TqWords, cache: CacheWords,
                   wasEven: seq<i32>, wasOdd: seq<i32>, even: seq<i32>, odd: seq<i32>)
    requires |fs| == |gs| == |caches| && |wasEven| == |wasOdd| == 128
    requires even == GainedPlane(wasEven, f, g[..128], cache) && odd == GainedPlane(wasOdd, f, g[128..], g[..128])
    requires forall i | 0 <= i < 128 :: wasEven[i] == Wrap32(EvenSum(fs, gs, caches, i)) && wasOdd[i] == Wrap32(OddSum(fs, gs, i))
    ensures forall i | 0 <= i < 128 :: even[i] == Wrap32(EvenSum(fs + [f], gs + [g], caches + [cache], i))
    ensures forall i | 0 <= i < 128 :: odd[i] == Wrap32(OddSum(fs + [f], gs + [g], i))
  {
    hide Wrap32, EvenSum, OddSum, GainedLane;
    forall i | 0 <= i < 128
      ensures even[i] == Wrap32(EvenSum(fs + [f], gs + [g], caches + [cache], i))
      ensures odd[i] == Wrap32(OddSum(fs + [f], gs + [g], i))
    {
      GainIsSum(fs, gs, caches, f, g, cache, i);
      assert even[i] == GainedLane(wasEven[i], f[i], g[..128][i], f[128 + i], cache[i]);
      assert odd[i] == GainedLane(wasOdd[i], f[i], g[128..][i], f[128 + i], g[..128][i]);
    }
  }

  // ---- the reduction ----

  /** `montgomery_reduce` on the two registers of a window. */
  function VNarrowReduce(a: seq<i32>): (r: Vec)
    ensures |r| == |a|
  {
    seq(|a|, i requires 0 <= i < |a| => NarrowReduce(a[i]))
  }

  /** Two registers of a plane, reduced and combined. */
  function ReduceWindow(plane: seq<i32>, at: nat): (r: Vec)
    requires at + 8 <= |plane|
    ensures |r| == 8
  {
    VNarrowReduce(plane[at..at + 4]) + VNarrowReduce(plane[at + 4..at + 8])
  }

  lemma ReducedWindow(plane: seq<i32>, fin: seq<i16>, at: nat, base: nat)
    requires |plane| == 128 && at + 8 <= 128 && base + 128 <= |fin|
    requires forall i | 0 <= i < 128 :: fin[base + i] == MontgomeryReduce(plane[i])
    ensures ReduceWindow(plane, at) == fin[base + at..base + at + 8]
  {
    hide MontgomeryReduce, NarrowReduce;
    var packed, window := ReduceWindow(plane, at), fin[base + at..base + at + 8];
    forall i | 0 <= i < 8 ensures packed[i] == window[i] {
      NarrowReduceIsScalar(plane[at + i]);
    }
  }

  /** `basemul_reduce`: one reduction per coefficient, eight pairs at a time. */
  method Reduce(acc: ProductAccumulator, ghost fs: seq<TqWords>, ghost gs: seq<TqWords>, ghost caches: seq<CacheWords>)
    returns (h: array<i16>)
    requires acc.Valid() && |fs| == |gs| == |caches| && acc.Holds(fs, gs, caches)
    ensures h[..] == DotWords(fs, gs, caches)
  {
    hide MontgomeryReduce, Wrap32, EvenSum, OddSum, HalvesProgress, ReduceWindow;
    h := new i16[256](_ => 0);
    ghost var was, fin := h[..], DotWords(fs, gs, caches);
    var at: nat := 0;
    while at < 128
      invariant at <= 128 && at % 8 == 0 && h[..] == HalvesProgress(was, fin, at)
    {
      ReducedWindow(acc.even[..], fin, at, 0);
      ReducedWindow(acc.odd[..], fin, at, 128);
      StoreHalves(h, at, ReduceWindow(acc.even[..], at), ReduceWindow(acc.odd[..], at), was, fin);
      at := at + 8;
    }
  }

  /** Any run of accumulate calls followed by one reduce is the scalar dot product. */
  method AccumulatedDotNeon(f: seq<TqWords>, g: seq<TqWords>, caches: seq<CacheWords>) returns (h: array<i16>)
    requires |f| == |g| == |caches|
    ensures h[..] == DotWords(f, g, caches)
  {
    var acc := new ProductAccumulator();
    for j := 0 to |f|
      invariant acc.Valid() && fresh(acc.even) && fresh(acc.odd)
      invariant acc.Holds(f[..j], g[..j], caches[..j])
    {
      Accumulate(acc, f[..j], g[..j], caches[..j], f[j], g[j], caches[j]);
      assert f[..j] + [f[j]] == f[..j + 1] && g[..j] + [g[j]] == g[..j + 1] && caches[..j] + [caches[j]] == caches[..j + 1];
    }
    assert f[..|f|] == f && g[..|f|] == g && caches[..|f|] == caches;
    h := Reduce(acc, f, g, caches);
  }
}
