/** NEON's whole forward transform, on either path, and both vectorized inverse
    transforms: the scalar representatives exactly. */
module SimdTransforms {
  import opened Words
  import opened Field
  import opened NttSpec
  import opened Lanes
  import opened Registers
  import opened SimdNtt
  import opened AsmPipelines
  import opened ScalarNtt

  /** The stride-128/64 stages through the pipelined blocks. */
  method PipelinedHead(c: array<i16>)
    requires c.Length == 256
    modifies c
    ensures c[..] == HeadStages(old(c[..]))
  {
    hide Stage, Finished, IsGroupStage, Vectors;
    ghost var written := Stride128(c, 1);
    ghost var mid := c[..];
    ghost var fin := Stage(mid, 64, 2);
    GroupsOfStage(mid, mid, 0);
    written := Stride64Group(c, 0, 2, fin);
    ghost var half := c[..];
    HalfFinished(half, mid, fin);
    GroupsOfStage(mid, half, 1);
    written := Stride64Group(c, 128, 3, fin);
    BothFinished(c[..], half, mid, fin);
  }

  /** Group `g` of the stride-64 stage, on memory that agrees with the stage's input there. */
  lemma GroupsOfStage(mid: seq<i16>, now: seq<i16>, g: nat)
    requires |mid| == |now| == 256 && g < 2 && now[128 * g..128 * g + 128] == mid[128 * g..128 * g + 128]
    ensures IsGroupStage(now, Stage(mid, 64, 2), 128 * g, 64, 2 + g)
  {
    hide Stage, Add, Sub, Twiddle;
    var fin, k, from, to := Stage(mid, 64, 2), 2 + g, 128 * g, 128 * g + 64;
    forall lo | from <= lo < to ensures IsButterflyPair(now, fin, lo, 64, k) {
      StageAt(mid, 64, 2, 2, g, lo - 128 * g);
      assert now[lo] == now[128 * g..128 * g + 128][lo - 128 * g];
      assert now[lo + 64] == now[128 * g..128 * g + 128][lo + 64 - 128 * g];
    }
  }

  lemma HalfFinished(half: seq<i16>, mid: seq<i16>, fin: seq<i16>)
    requires Finished(half, mid, fin, 0, 64, 64) && |mid| == 256
    ensures half[..128] == fin[..128] && half[128 * 1..128 * 1 + 128] == mid[128..256]
  {
  }

  lemma BothFinished(c: seq<i16>, half: seq<i16>, mid: seq<i16>, fin: seq<i16>)
    requires Finished(c, half, fin, 128, 64, 64) && Finished(half, mid, fin, 0, 64, 64) && |c| == 256
    ensures c == fin
  {
  }

  /** NEON's `ntt`, with the pipelined or the merged head. */
  method NttNeon(pipelined: bool, c: array<i16>)
    requires c.Length == 256
    modifies c
    ensures c[..] == NttWords(old(c[..]))
  {
    hide Stage, HeadStages, QuarterStages8;
    StagesUnfold(c[..]);
    if pipelined {
      PipelinedHead(c);
    } else {
      HeadTrip(Neon, c);
    }
    QuarterTrip(Neon, c);
    var k := StageInPlace(c, 4, 32);
    k := StageInPlace(c, 2, k);
    ReduceInPlace(c);
  }

  // ---- inverse ----

  /** The two vectors an inverse butterfly writes. */
  function VLowerSum(simd: Simd, a: Vec, b: Vec, reduce: bool): (r: Vec)
    requires |a| == |b|
    ensures |r| == |a|
  {
    seq(|a|, i requires 0 <= i < |a| => if reduce then ReduceLane(simd, Add(a[i], b[i])) else Add(a[i], b[i]))
  }

  lemma VLowerSumAt(simd: Simd, a: Vec, b: Vec, reduce: bool, i: nat)
    requires |a| == |b| && i < |a|
    ensures VLowerSum(simd, a, b, reduce)[i] == LowerSum(a[i], b[i], reduce)
  {
    hide Add, ReduceLane, Barrett;
    ReduceLaneIsScalar(simd, Add(a[i], b[i]));
  }

  /** Vectors of a block of inverse butterflies: the low half written up to `n`. */
  ghost predicate InverseUpTo(was: seq<i16>, now: seq<i16>, start: nat, len: nat, k: nat, reduce: bool, n: nat)
    requires k < 128 && start + 2 * len <= |was| == |now| && n <= len
  {
    && (forall i | start <= i < start + n :: now[i] == LowerSum(was[i], was[i + len], reduce))
    && (forall i | start + len <= i < start + len + n :: now[i] == Twiddle(k, Sub(was[i], was[i - len])))
    && (forall i | 0 <= i < |was| && !(start <= i < start + n || start + len <= i < start + len + n) :: now[i] == was[i])
  }

  lemma PairValues(simd: Simd, was: seq<i16>, low: Vec, high: Vec, j: nat, len: nat, k: nat, reduce: bool, sum: Vec, twiddled: Vec)
    requires k < 128 && |low| == |high| <= len && j + len + |high| <= |was|
    requires low == was[j..j + |low|] && high == was[j + len..j + len + |high|]
    requires sum == VLowerSum(simd, low, high, reduce) && twiddled == VTwiddle(simd, VSub(high, low), k)
    ensures forall i | 0 <= i < |low| :: sum[i] == LowerSum(was[j + i], was[j + i + len], reduce)
    ensures forall i | 0 <= i < |low| :: twiddled[i] == Twiddle(k, Sub(was[j + len + i], was[j + i]))
  {
    hide VLowerSum, VTwiddle, VSub, LowerSum, Twiddle, Sub;
    forall i | 0 <= i < |low|
      ensures sum[i] == LowerSum(was[j + i], was[j + i + len], reduce) && twiddled[i] == Twiddle(k, Sub(was[j + len + i], was[j + i]))
    {
      assert low[i] == was[j + i] && high[i] == was[j + len + i];
      VLowerSumAt(simd, low, high, reduce, i);
      VTwiddleAt(simd, VSub(high, low), k, i);
      VSubAt(high, low, i);
    }
  }

  /** One vector pair of the inverse loop. */
  method InverseVectorPair(simd: Simd, c: array<i16>, start: nat, len: nat, k: nat, n: nat, ghost was: seq<i16>)
    requires k < 128 && start + 2 * len <= |was| == c.Length && n + Width(simd) <= len && len != 2
    requires InverseUpTo(was, c[..], start, len, k, Reduces(len), n)
    modifies c
    ensures InverseUpTo(was, c[..], start, len, k, Reduces(len), n + Width(simd))
  {
    hide VLowerSum, VTwiddle, VSub, InverseUpTo, LowerSum, Twiddle, Sub;
    var w := Width(simd);
    var j := start + n;
    ghost var before := c[..];
    Unwritten(was, before, start, len, k, Reduces(len), n, w, j);
    var vj, vjl := c[j..j + w], c[j + len..j + len + w];
    var sum := VLowerSum(simd, vj, vjl, len == 16);
    var twiddled := VTwiddle(simd, VSub(vjl, vj), k);
    PairValues(simd, was, vj, vjl, j, len, k, len == 16, sum, twiddled);
    Store(c, j, sum);
    Store(c, j + len, twiddled);
    PairWritten(was, before, c[..], start, len, k, Reduces(len), n, w, j, sum, twiddled);
  }

  lemma Unwritten(was: seq<i16>, now: seq<i16>, start: nat, len: nat, k: nat, reduce: bool, n: nat, w: nat, j: nat)
    requires k < 128 && start + 2 * len <= |was| == |now| && n + w <= len && InverseUpTo(was, now, start, len, k, reduce, n)
    requires j == start + n
    ensures now[j..j + w] == was[j..j + w] && now[j + len..j + len + w] == was[j + len..j + len + w]
  {
    hide LowerSum, Twiddle, Sub;
  }

  lemma VSubAt(a: Vec, b: Vec, i: nat)
    requires |a| == |b| && i < |a|
    ensures VSub(a, b)[i] == Sub(a[i], b[i])
  {
    hide Sub;
  }

  lemma PairWritten(was: seq<i16>, before: seq<i16>, now: seq<i16>, start: nat, len: nat, k: nat, reduce: bool, n: nat, w: nat,
                    j: nat, sum: Vec, twiddled: Vec)
    requires k < 128 && start + 2 * len <= |was| == |now| == |before| && n + w <= len && |sum| == |twiddled| == w && j == start + n
    requires InverseUpTo(was, before, start, len, k, reduce, n)
    requires forall i | 0 <= i < w :: sum[i] == LowerSum(was[j + i], was[j + i + len], reduce)
    requires forall i | 0 <= i < w :: twiddled[i] == Twiddle(k, Sub(was[j + len + i], was[j + i]))
    requires forall i | 0 <= i < w :: now[j + len + i] == twiddled[i] && now[j + i] == sum[i]
    requires forall i | 0 <= i < |was| && !(j <= i < j + w) && !(j + len <= i < j + len + w) :: now[i] == before[i]
    ensures InverseUpTo(was, now, start, len, k, reduce, n + w)
  {
    hide LowerSum, Twiddle, Sub;
    forall i | start <= i < start + n + w ensures now[i] == LowerSum(was[i], was[i + len], reduce) {
      if i >= j {
        var l := i - j;
        assert now[j + l] == sum[l];
      }
    }
    forall i | start + len <= i < start + len + n + w ensures now[i] == Twiddle(k, Sub(was[i], was[i - len])) {
      if i >= j + len {
        var l := i - j - len;
        assert now[j + len + l] == twiddled[l];
      }
    }
  }

  /** The vector loop over one block. */
  method InverseBlock(simd: Simd, c: array<i16>, start: nat, len: nat, k: nat)
    requires start + 2 * len <= c.Length && k < 128 && IsStride(len) && len >= Width(simd)
    modifies c
    ensures BlockReplaced(old(c[..]), c[..], start, InverseButterflies(old(c[..])[start..start + 2 * len], k, Reduces(len)))
  {
    hide BlockReplaced, InverseButterflies, LowerSum, Twiddle, Sub, InverseUpTo;
    ghost var was := c[..];
    StartOfBlock(was, start, len, k);
    assert len % Width(simd) == 0;
    var n: nat := 0;
    while n < len
      invariant n <= len && n % Width(simd) == 0
      invariant InverseUpTo(was, c[..], start, len, k, Reduces(len), n)
    {
      InverseVectorPair(simd, c, start, len, k, n, was);
      n := n + Width(simd);
    }
    EndOfBlock(was, c[..], start, len, k);
  }

  lemma StartOfBlock(was: seq<i16>, start: nat, len: nat, k: nat)
    requires start + 2 * len <= |was| && k < 128
    ensures InverseUpTo(was, was, start, len, k, Reduces(len), 0)
  {
  }

  lemma EndOfBlock(was: seq<i16>, now: seq<i16>, start: nat, len: nat, k: nat)
    requires start + 2 * len <= |was| == |now| && k < 128 && InverseUpTo(was, now, start, len, k, Reduces(len), len)
    ensures BlockReplaced(was, now, start, InverseButterflies(was[start..start + 2 * len], k, Reduces(len)))
  {
    hide BlockReplaced, InverseButterflies, LowerSum, Twiddle, Sub;
    BlockInverseButterflied(was, now, start, len, k, Reduces(len));
  }

  /** One vectorized inverse stage; its `blocks` zetas are read downwards. */
  method InverseStageVector(simd: Simd, c: array<i16>, len: nat, k0: nat, ghost blocks: nat) returns (k: nat)
    requires c.Length == 256 && IsStride(len) && len >= Width(simd) && blocks * (2 * len) == 256 && blocks <= 64
    requires k0 == 2 * blocks - 1
    modifies c
    ensures c[..] == InverseStage(old(c[..]), len, k0) && k == blocks - 1
  {
    hide InverseButterflies, InverseStage, Reduces;
    k := k0;
    ghost var was := c[..];
    var start := 0;
    assert c[..] == [] + was;
    assert blocks > 0;
    while start < 256
      invariant blocks - 1 <= k <= k0 && start == (k0 - k) * (2 * len) <= 256
      invariant c[..][..start] + InverseStage(c[..][start..], len, k) == InverseStage(was, len, k0)
    {
      BlockIndex(len, blocks, blocks + (k0 - k), start);
      ghost var before := c[..];
      InverseBlock(simd, c, start, len, k);
      InverseStageUnfolds(before, c[..], start, len, k);
      k := k - 1;
      start := start + 2 * len;
    }
    InverseStageOfNothing(c[..][start..], len, k);
    EqualTiles(len, blocks, k0 - k);
  }

  /** The final scale, a vector at a time. */
  method ScaleVectors(simd: Simd, c: array<i16>)
    requires c.Length == 256
    modifies c
    ensures c[..] == MulAll(old(c[..]), INVERSE_SCALE)
  {
    hide VScale, MulAll, Progress;
    ghost var was := c[..];
    ghost var fin := MulAll(was, INVERSE_SCALE);
    var w := Width(simd);
    var j: nat := 0;
    while j < 256
      invariant j <= 256 && j % w == 0 && c[..] == Progress(was, fin, j)
    {
      ProgressTail(was, fin, j, w);
      var v := c[j..j + w];
      var scaled := VScale(simd, v);
      ScaledSlice(simd, was, j, w);
      StoreNext(c, j, scaled, was, fin);
      j := j + w;
    }
  }

  /** `fqmul(scale, v)`. */
  function VScale(simd: Simd, v: Vec): (r: Vec)
    ensures |r| == |v|
  {
    seq(|v|, i requires 0 <= i < |v| => MulLane(simd, INVERSE_SCALE, v[i]))
  }

  lemma ScaledSlice(simd: Simd, was: seq<i16>, j: nat, w: nat)
    requires j + w <= |was|
    ensures VScale(simd, was[j..j + w]) == MulAll(was, INVERSE_SCALE)[j..j + w]
  {
    hide Mul, MulLane;
    var scaled, fin := VScale(simd, was[j..j + w]), MulAll(was, INVERSE_SCALE);
    forall i | 0 <= i < w ensures scaled[i] == fin[j + i] {
      MulLaneIsScalar(simd, INVERSE_SCALE, was[j + i]);
      MulCommutes(INVERSE_SCALE, was[j + i]);
    }
  }

  lemma MulCommutes(a: i16, b: i16)
    ensures Mul(a, b) == Mul(b, a)
  {
    assert a * b == b * a;
  }

  /** Both vectorized `ntt_inverse`s: scalar head, vector stages, vector scale. */
  method InverseNttSimd(simd: Simd, c: array<i16>)
    requires c.Length == 256
    modifies c
    ensures c[..] == InverseNttWords(old(c[..]))
  {
    hide InverseStage, MulAll;
    ghost var was := c[..];
    var k := 127;
    for s := 0 to 7
      invariant k == NEXT_INDEX[s]
      invariant c[..] == InverseStages(was, STRIDES_DONE[s], 2 * k + 1)
    {
      InverseSchedule(s);
      var len := NTT_SERIES[6 - s];
      if len < Width(simd) {
        k := InverseStageInPlace(c, len, k, (k + 1) / 2);
      } else {
        k := InverseStageVector(simd, c, len, k, (k + 1) / 2);
      }
    }
    ScaleVectors(simd, c);
  }
}
