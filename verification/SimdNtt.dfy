/** The vectorized transforms (`src/algebraic/poly/arch/avx2.rs`,
    `src/algebraic/poly/arch/neon.rs`): stages merged into register trips over data
    slices, proved to leave exactly the words of the stage-at-a-time transform. */
module SimdNtt {
  import opened Words
  import opened Field
  import opened NttSpec
  import opened Lanes
  import opened Registers
  import ScalarNtt

  // ---- one pair of a stage ----

  /** `r` holds the butterfly of the words `lo` and `lo + len` of `c` under zeta `k`. */
  predicate IsButterflyPair(c: seq<i16>, r: seq<i16>, lo: nat, len: nat, k: nat) {
    && lo + len < |c| == |r| && k < 128
    && r[lo] == Add(c[lo], Twiddle(k, c[lo + len])) && r[lo + len] == Sub(c[lo], Twiddle(k, c[lo + len]))
  }

  lemma PairInFirstBlock(c: seq<i16>, len: nat, k: nat, o: nat)
    requires len > 0 && 2 * len <= |c| && k < 128 && o < len
    ensures IsButterflyPair(c, Stage(c, len, k), o, len, k)
  {
    hide Butterflies, Add, Sub, Twiddle;
    ButterfliesAt(c[..2 * len], k, o);
    ButterfliesAt(c[..2 * len], k, o + len);
  }

  lemma PairShifts(c: seq<i16>, r: seq<i16>, skip: nat, lo: nat, len: nat, k: nat)
    requires skip <= |c| == |r| && IsButterflyPair(c[skip..], r[skip..], lo, len, k)
    ensures IsButterflyPair(c, r, skip + lo, len, k)
  {
    hide Add, Sub, Twiddle;
  }

  /** The two words a stage writes at offset `o` of block `b`. */
  lemma {:induction false} StageAt(c: seq<i16>, len: nat, k: nat, n: nat, b: nat, o: nat)
    requires len > 0 && |c| == n * (2 * len) && k + n <= 128 && b < n && o < len
    ensures IsButterflyPair(c, Stage(c, len, k), b * (2 * len) + o, len, k + b)
    decreases n
  {
    hide Butterflies, IsButterflyPair;
    BlockArithmetic(n, len);
    if b == 0 {
      PairInFirstBlock(c, len, k, o);
    } else {
      StageAt(c[2 * len..], len, k + 1, n - 1, b - 1, o);
      BlockArithmetic(b, len);
      assert Stage(c, len, k)[2 * len..] == Stage(c[2 * len..], len, k + 1);
      PairShifts(c, Stage(c, len, k), 2 * len, (b - 1) * (2 * len) + o, len, k + b);
    }
  }

  // ---- the stride-128/64 trip ----

  /** The four words of one offset through strides 128 and 64. */
  function HeadLane(a0: i16, a1: i16, a2: i16, a3: i16): (i16, i16, i16, i16) {
    var b0, b2 := Add(a0, Twiddle(1, a2)), Sub(a0, Twiddle(1, a2));
    var b1, b3 := Add(a1, Twiddle(1, a3)), Sub(a1, Twiddle(1, a3));
    (Add(b0, Twiddle(2, b1)), Sub(b0, Twiddle(2, b1)), Add(b2, Twiddle(3, b3)), Sub(b2, Twiddle(3, b3)))
  }

  function HeadStages(c: seq<i16>): (r: seq<i16>)
    ensures |r| == |c|
  {
    Stage(Stage(c, 128, 1), 64, 2)
  }

  /** Offset `o` of the four quarters of `x` is `y`'s. */
  predicate QuartersAgree(x: seq<i16>, y: seq<i16>, o: nat) {
    |x| == |y| == 256 && o < 64 && x[o] == y[o] && x[64 + o] == y[64 + o] && x[128 + o] == y[128 + o] && x[192 + o] == y[192 + o]
  }

  predicate QuartersAre(x: seq<i16>, o: nat, v: (i16, i16, i16, i16)) {
    |x| == 256 && o < 64 && x[o] == v.0 && x[64 + o] == v.1 && x[128 + o] == v.2 && x[192 + o] == v.3
  }

  lemma FirstLevel(c: seq<i16>, o: nat)
    requires |c| == 256 && o < 64
    ensures QuartersAre(Stage(c, 128, 1), o,
              (Add(c[o], Twiddle(1, c[128 + o])), Add(c[64 + o], Twiddle(1, c[192 + o])),
               Sub(c[o], Twiddle(1, c[128 + o])), Sub(c[64 + o], Twiddle(1, c[192 + o]))))
  {
    hide Stage, Add, Sub, Twiddle;
    StageAt(c, 128, 1, 1, 0, o);
    StageAt(c, 128, 1, 1, 0, 64 + o);
  }

  lemma SecondLevel(c: seq<i16>, o: nat)
    requires |c| == 256 && o < 64
    ensures QuartersAre(Stage(c, 64, 2), o,
              (Add(c[o], Twiddle(2, c[64 + o])), Sub(c[o], Twiddle(2, c[64 + o])),
               Add(c[128 + o], Twiddle(3, c[192 + o])), Sub(c[128 + o], Twiddle(3, c[192 + o]))))
  {
    hide Stage, Add, Sub, Twiddle;
    StageAt(c, 64, 2, 2, 0, o);
    StageAt(c, 64, 2, 2, 1, o);
  }

  lemma HeadSlice(c: seq<i16>, o: nat)
    requires |c| == 256 && o < 64
    ensures QuartersAre(HeadStages(c), o, HeadLane(c[o], c[64 + o], c[128 + o], c[192 + o]))
  {
    hide Stage, Add, Sub, Twiddle;
    FirstLevel(c, o);
    SecondLevel(Stage(c, 128, 1), o);
  }

  /** Offset `o` went through both levels. */
  predicate HeadDone(was: seq<i16>, now: seq<i16>, o: nat) {
    |was| == 256 && o < 64 && QuartersAre(now, o, HeadLane(was[o], was[64 + o], was[128 + o], was[192 + o]))
  }

  /** The registers hold both levels of the quarters at offset `at`. */
  ghost predicate HeadRegisters(was: seq<i16>, at: nat, w: nat, y0: Vec, y1: Vec, y2: Vec, y3: Vec) {
    && |was| == 256 && at + w <= 64 && |y0| == |y1| == |y2| == |y3| == w
    && forall l | 0 <= l < w ::
         (y0[l], y1[l], y2[l], y3[l]) == HeadLane(was[at + l], was[64 + at + l], was[128 + at + l], was[192 + at + l])
  }

  lemma HeadButterflies(simd: Simd, was: seq<i16>, at: nat, w: nat)
    requires |was| == 256 && at + w <= 64
    ensures var (x0, x2) := VButterfly(simd, was[at..at + w], was[128 + at..128 + at + w], 1);
            var (x1, x3) := VButterfly(simd, was[64 + at..64 + at + w], was[192 + at..192 + at + w], 1);
            var (y0, y1) := VButterfly(simd, x0, x1, 2);
            var (y2, y3) := VButterfly(simd, x2, x3, 3);
            HeadRegisters(was, at, w, y0, y1, y2, y3)
  {
    hide Add, Sub, Twiddle, VButterfly;
    var (x0, x2) := VButterfly(simd, was[at..at + w], was[128 + at..128 + at + w], 1);
    var (x1, x3) := VButterfly(simd, was[64 + at..64 + at + w], was[192 + at..192 + at + w], 1);
    forall l | 0 <= l < w
      ensures (VButterfly(simd, x0, x1, 2).0[l], VButterfly(simd, x0, x1, 2).1[l], VButterfly(simd, x2, x3, 3).0[l], VButterfly(simd, x2, x3, 3).1[l])
           == HeadLane(was[at + l], was[64 + at + l], was[128 + at + l], was[192 + at + l])
    {
      VButterflyAt(simd, was[at..at + w], was[128 + at..128 + at + w], 1, l);
      VButterflyAt(simd, was[64 + at..64 + at + w], was[192 + at..192 + at + w], 1, l);
      VButterflyAt(simd, x0, x1, 2, l);
      VButterflyAt(simd, x2, x3, 3, l);
    }
  }

  /** One iteration: four vectors, one per quarter, through both levels. */
  method HeadIteration(simd: Simd, c: array<i16>, at: nat)
    requires c.Length == 256 && at + Width(simd) <= 64
    modifies c
    ensures forall o | at <= o < at + Width(simd) :: HeadDone(old(c[..]), c[..], o)
    ensures forall o | 0 <= o < 64 && !(at <= o < at + Width(simd)) :: QuartersAgree(c[..], old(c[..]), o)
  {
    hide VButterfly, HeadRegisters, HeadDone, QuartersAgree;
    ghost var was := c[..];
    var w := Width(simd);
    HeadButterflies(simd, was, at, w);
    var v0, v1 := c[at..at + w], c[64 + at..64 + at + w];
    var v2, v3 := c[128 + at..128 + at + w], c[192 + at..192 + at + w];
    assert v0 == was[at..at + w] && v1 == was[64 + at..64 + at + w];
    assert v2 == was[128 + at..128 + at + w] && v3 == was[192 + at..192 + at + w];
    var (x0, x2) := VButterfly(simd, v0, v2, 1);
    var (x1, x3) := VButterfly(simd, v1, v3, 1);
    var (y0, y1) := VButterfly(simd, x0, x1, 2);
    var (y2, y3) := VButterfly(simd, x2, x3, 3);
    StoreQuarters(c, at, w, y0, y1, y2, y3);
  }

  method StoreQuarters(c: array<i16>, at: nat, w: nat, y0: Vec, y1: Vec, y2: Vec, y3: Vec)
    requires c.Length == 256 && HeadRegisters(c[..], at, w, y0, y1, y2, y3)
    modifies c
    ensures forall o | at <= o < at + w :: HeadDone(old(c[..]), c[..], o)
    ensures forall o | 0 <= o < 64 && !(at <= o < at + w) :: QuartersAgree(c[..], old(c[..]), o)
  {
    hide HeadLane, HeadDone, QuartersAgree, Stored;
    ghost var was := c[..];
    Store(c, at, y0);
    Store(c, 64 + at, y1);
    Store(c, 128 + at, y2);
    Store(c, 192 + at, y3);
    ghost var now := c[..];
    assert now == StoredQuarters(was, at, y0, y1, y2, y3);
    forall o | at <= o < at + w ensures HeadDone(was, now, o) {
      QuartersStored(was, at, w, y0, y1, y2, y3, o);
    }
    forall o | 0 <= o < 64 && !(at <= o < at + w) ensures QuartersAgree(now, was, o) {
      QuartersStored(was, at, w, y0, y1, y2, y3, o);
    }
  }

  function StoredQuarters(s: seq<i16>, at: nat, y0: Vec, y1: Vec, y2: Vec, y3: Vec): (r: seq<i16>)
    requires |s| == 256 && |y0| == |y1| == |y2| == |y3| && at + |y0| <= 64
    ensures |r| == 256
  {
    Stored(Stored(Stored(Stored(s, at, y0), 64 + at, y1), 128 + at, y2), 192 + at, y3)
  }

  lemma StoredQuartersAt(s: seq<i16>, at: nat, y0: Vec, y1: Vec, y2: Vec, y3: Vec, j: nat)
    requires |s| == 256 && |y0| == |y1| == |y2| == |y3| && at + |y0| <= 64 && j < 256
    ensures StoredQuarters(s, at, y0, y1, y2, y3)[j]
         == if at <= j < at + |y0| then y0[j - at]
            else if 64 + at <= j < 64 + at + |y0| then y1[j - 64 - at]
            else if 128 + at <= j < 128 + at + |y0| then y2[j - 128 - at]
            else if 192 + at <= j < 192 + at + |y0| then y3[j - 192 - at]
            else s[j]
  {
    hide Stored;
    var s0 := Stored(s, at, y0);
    var s1 := Stored(s0, 64 + at, y1);
    var s2 := Stored(s1, 128 + at, y2);
    StoredAt(s, at, y0, j);
    StoredAt(s0, 64 + at, y1, j);
    StoredAt(s1, 128 + at, y2, j);
    StoredAt(s2, 192 + at, y3, j);
  }

  lemma QuartersStored(was: seq<i16>, at: nat, w: nat, y0: Vec, y1: Vec, y2: Vec, y3: Vec, o: nat)
    requires HeadRegisters(was, at, w, y0, y1, y2, y3) && o < 64
    ensures at <= o < at + w ==> HeadDone(was, StoredQuarters(was, at, y0, y1, y2, y3), o)
    ensures !(at <= o < at + w) ==> QuartersAgree(StoredQuarters(was, at, y0, y1, y2, y3), was, o)
  {
    hide HeadLane, StoredQuarters;
    StoredQuartersAt(was, at, y0, y1, y2, y3, o);
    StoredQuartersAt(was, at, y0, y1, y2, y3, 64 + o);
    StoredQuartersAt(was, at, y0, y1, y2, y3, 128 + o);
    StoredQuartersAt(was, at, y0, y1, y2, y3, 192 + o);
    if at <= o < at + w {
      var l := o - at;
      assert (y0[l], y1[l], y2[l], y3[l]) == HeadLane(was[at + l], was[64 + at + l], was[128 + at + l], was[192 + at + l]);
    }
  }

  /** The merged stride-128/64 trip. */
  method HeadTrip(simd: Simd, c: array<i16>)
    requires c.Length == 256
    modifies c
    ensures c[..] == HeadStages(old(c[..]))
  {
    hide HeadStages, HeadLane;
    ghost var was, fin := c[..], HeadStages(c[..]);
    var w := Width(simd);
    var at: nat := 0;
    while at < 64
      invariant at <= 64 && at % w == 0
      invariant forall o | 0 <= o < at :: QuartersAgree(c[..], fin, o)
      invariant forall o | at <= o < 64 :: QuartersAgree(c[..], was, o)
    {
      ghost var before := c[..];
      HeadIteration(simd, c, at);
      forall o | 0 <= o < at + w ensures QuartersAgree(c[..], fin, o) {
        if o < at {
          assert QuartersAgree(before, fin, o) && QuartersAgree(c[..], before, o);
        } else {
          assert QuartersAgree(before, was, o) && HeadDone(before, c[..], o);
          HeadSlice(was, o);
        }
      }
      forall o | at + w <= o < 64 ensures QuartersAgree(c[..], was, o) {
        assert QuartersAgree(before, was, o) && QuartersAgree(c[..], before, o);
      }
      at := at + w;
    }
    QuartersDetermine(c[..], fin);
  }

  lemma QuartersDetermine(x: seq<i16>, y: seq<i16>)
    requires |x| == |y| == 256 && forall o | 0 <= o < 64 :: QuartersAgree(x, y, o)
    ensures x == y
  {
    forall j | 0 <= j < 256 ensures x[j] == y[j] {
      assert QuartersAgree(x, y, j % 64);
    }
  }

  // ---- the narrower trips ----

  /** One vector butterfly computes its slices `lo..loEnd` and `hi..hiEnd` of block `b`
      of a whole stage. */
  lemma VectorPair(simd: Simd, c: seq<i16>, len: nat, k: nat, n: nat, b: nat, lo: nat, loEnd: nat, hi: nat, hiEnd: nat)
    requires len > 0 && |c| == n * (2 * len) && k + n <= 128 && b < n
    requires b * (2 * len) <= lo <= loEnd <= b * (2 * len) + len && hi == lo + len && hiEnd == loEnd + len <= |c|
    ensures VButterfly(simd, c[lo..loEnd], c[hi..hiEnd], k + b) == (Stage(c, len, k)[lo..loEnd], Stage(c, len, k)[hi..hiEnd])
  {
    hide VButterfly, Stage, Add, Sub, Twiddle;
    var r, s := VButterfly(simd, c[lo..loEnd], c[hi..hiEnd], k + b), Stage(c, len, k);
    forall i | 0 <= i < loEnd - lo ensures r.0[i] == s[lo + i] && r.1[i] == s[hi + i] {
      StageAt(c, len, k, n, b, lo - b * (2 * len) + i);
      VButterflyAt(simd, c[lo..loEnd], c[hi..hiEnd], k + b, i);
    }
    assert r.0 == s[lo..loEnd] && r.1 == s[hi..hiEnd];
  }

  /** Blocks of a stage are independent. */
  lemma StageSlice(c: seq<i16>, len: nat, k: nat, before: nat, n: nat, at: nat, size: nat)
    requires len > 0 && at == before * (2 * len) && size == n * (2 * len) && at + size <= |c|
    ensures Stage(c, len, k)[at..at + size] == Stage(c[at..at + size], len, k + before)
  {
    hide Stage;
    var rest := c[at..];
    assert c == c[..at] + rest && rest == c[at..at + size] + rest[size..];
    StageConcat(c[..at], rest, len, k, before);
    StageConcat(c[at..at + size], rest[size..], len, k + before, n);
  }

  /** The strides of the AVX2 quarter trip. */
  function QuarterStages16(c: seq<i16>): (r: seq<i16>)
    ensures |r| == |c|
  {
    Stage(Stage(c, 32, 4), 16, 8)
  }

  /** One quarter's four vectors through strides 32 and 16. */
  function QuarterAvx2(c: Vec, quarter: nat): Vec
    requires |c| == 64 && quarter < 4
  {
    var v0, v1, v2, v3 := c[0..16], c[16..32], c[32..48], c[48..64];
    var (x0, x2) := VButterfly(Avx2, v0, v2, 4 + quarter);
    var (x1, x3) := VButterfly(Avx2, v1, v3, 4 + quarter);
    var (y0, y1) := VButterfly(Avx2, x0, x1, 8 + 2 * quarter);
    var (y2, y3) := VButterfly(Avx2, x2, x3, 9 + 2 * quarter);
    y0 + y1 + y2 + y3
  }

  lemma QuarterAvx2IsStages(c: Vec, quarter: nat)
    requires |c| == 64 && quarter < 4
    ensures QuarterAvx2(c, quarter) == Stage(Stage(c, 32, 4 + quarter), 16, 8 + 2 * quarter)
  {
    hide VButterfly, Stage;
    var mid := Stage(c, 32, 4 + quarter);
    VectorPair(Avx2, c, 32, 4 + quarter, 1, 0, 0, 16, 32, 48);
    VectorPair(Avx2, c, 32, 4 + quarter, 1, 0, 16, 32, 48, 64);
    VectorPair(Avx2, mid, 16, 8 + 2 * quarter, 2, 0, 0, 16, 16, 32);
    VectorPair(Avx2, mid, 16, 8 + 2 * quarter, 2, 1, 32, 48, 48, 64);
    FourSlices(Stage(mid, 16, 8 + 2 * quarter));
  }

  lemma FourSlices(s: seq<i16>)
    requires |s| == 64
    ensures s[0..16] + s[16..32] + s[32..48] + s[48..64] == s
  {
  }

  /** The strides of the NEON quarter trip. */
  function QuarterStages8(c: seq<i16>): (r: seq<i16>)
    ensures |r| == |c|
  {
    Stage(Stage(Stage(c, 32, 4), 16, 8), 8, 16)
  }

  /** One quarter's eight vectors through strides 32, 16 and 8. */
  function QuarterNeon(c: Vec, quarter: nat): Vec
    requires |c| == 64 && quarter < 4
  {
    var v0, v1, v2, v3 := c[0..8], c[8..16], c[16..24], c[24..32];
    var v4, v5, v6, v7 := c[32..40], c[40..48], c[48..56], c[56..64];
    var (w0, w4) := VButterfly(Neon, v0, v4, 4 + quarter);
    var (w1, w5) := VButterfly(Neon, v1, v5, 4 + quarter);
    var (w2, w6) := VButterfly(Neon, v2, v6, 4 + quarter);
    var (w3, w7) := VButterfly(Neon, v3, v7, 4 + quarter);
    var (x0, x2) := VButterfly(Neon, w0, w2, 8 + 2 * quarter);
    var (x1, x3) := VButterfly(Neon, w1, w3, 8 + 2 * quarter);
    var (x4, x6) := VButterfly(Neon, w4, w6, 9 + 2 * quarter);
    var (x5, x7) := VButterfly(Neon, w5, w7, 9 + 2 * quarter);
    var (y0, y1) := VButterfly(Neon, x0, x1, 16 + 4 * quarter);
    var (y2, y3) := VButterfly(Neon, x2, x3, 17 + 4 * quarter);
    var (y4, y5) := VButterfly(Neon, x4, x5, 18 + 4 * quarter);
    var (y6, y7) := VButterfly(Neon, x6, x7, 19 + 4 * quarter);
    y0 + y1 + y2 + y3 + y4 + y5 + y6 + y7
  }

  lemma EightSlices(s: seq<i16>)
    requires |s| == 64
    ensures s[0..8] + s[8..16] + s[16..24] + s[24..32] + s[32..40] + s[40..48] + s[48..56] + s[56..64] == s
  {
  }

  lemma QuarterNeonIsStages(c: Vec, quarter: nat)
    requires |c| == 64 && quarter < 4
    ensures QuarterNeon(c, quarter) == Stage(Stage(Stage(c, 32, 4 + quarter), 16, 8 + 2 * quarter), 8, 16 + 4 * quarter)
  {
    hide VButterfly, Stage;
    var mid := Stage(c, 32, 4 + quarter);
    var low := Stage(mid, 16, 8 + 2 * quarter);
    VectorPair(Neon, c, 32, 4 + quarter, 1, 0, 0, 8, 32, 40);
    VectorPair(Neon, c, 32, 4 + quarter, 1, 0, 8, 16, 40, 48);
    VectorPair(Neon, c, 32, 4 + quarter, 1, 0, 16, 24, 48, 56);
    VectorPair(Neon, c, 32, 4 + quarter, 1, 0, 24, 32, 56, 64);
    VectorPair(Neon, mid, 16, 8 + 2 * quarter, 2, 0, 0, 8, 16, 24);
    VectorPair(Neon, mid, 16, 8 + 2 * quarter, 2, 0, 8, 16, 24, 32);
    VectorPair(Neon, mid, 16, 8 + 2 * quarter, 2, 1, 32, 40, 48, 56);
    VectorPair(Neon, mid, 16, 8 + 2 * quarter, 2, 1, 40, 48, 56, 64);
    VectorPair(Neon, low, 8, 16 + 4 * quarter, 4, 0, 0, 8, 8, 16);
    VectorPair(Neon, low, 8, 16 + 4 * quarter, 4, 1, 16, 24, 24, 32);
    VectorPair(Neon, low, 8, 16 + 4 * quarter, 4, 2, 32, 40, 40, 48);
    VectorPair(Neon, low, 8, 16 + 4 * quarter, 4, 3, 48, 56, 56, 64);
    EightSlices(Stage(low, 8, 16 + 4 * quarter));
  }

  /** What the quarter trip does to the whole array. */
  function QuarterStages(simd: Simd, c: seq<i16>): (r: seq<i16>)
    ensures |r| == |c|
  {
    if simd.Avx2? then QuarterStages16(c) else QuarterStages8(c)
  }

  function Quarter(simd: Simd, c: Vec, quarter: nat): Vec
    requires |c| == 64 && quarter < 4
  {
    if simd.Avx2? then QuarterAvx2(c, quarter) else QuarterNeon(c, quarter)
  }

  lemma QuarterIsSlice(simd: Simd, c: seq<i16>, quarter: nat, at: nat)
    requires |c| == 256 && quarter < 4 && at == 64 * quarter
    ensures Quarter(simd, c[at..at + 64], quarter) == QuarterStages(simd, c)[at..at + 64]
  {
    hide Stage, QuarterAvx2, QuarterNeon;
    var block := c[at..at + 64];
    StageSlice(c, 32, 4, quarter, 1, at, 64);
    var mid := Stage(c, 32, 4);
    StageSlice(mid, 16, 8, 2 * quarter, 2, at, 64);
    if simd.Avx2? {
      QuarterAvx2IsStages(block, quarter);
    } else {
      StageSlice(Stage(mid, 16, 8), 8, 16, 4 * quarter, 4, at, 64);
      QuarterNeonIsStages(block, quarter);
    }
  }

  /** The merged trip over the four quarters. */
  method QuarterTrip(simd: Simd, c: array<i16>)
    requires c.Length == 256
    modifies c
    ensures c[..] == QuarterStages(simd, old(c[..]))
  {
    hide Quarter, QuarterStages, Progress, Stored;
    ghost var was := c[..];
    ghost var fin := QuarterStages(simd, was);
    var quarter: nat := 0;
    while quarter < 4
      invariant quarter <= 4 && c[..] == Progress(was, fin, 64 * quarter)
    {
      var at := 64 * quarter;
      QuarterIsSlice(simd, was, quarter, at);
      ProgressSlice(was, fin, at);
      Store(c, at, Quarter(simd, c[at..at + 64], quarter));
      quarter := quarter + 1;
    }
  }

  lemma ProgressSlice(was: seq<i16>, fin: seq<i16>, at: nat)
    requires |was| == |fin| == 256 && at + 64 <= 256
    ensures Progress(was, fin, at)[at..at + 64] == was[at..at + 64]
    ensures Stored(Progress(was, fin, at), at, fin[at..at + 64]) == Progress(was, fin, at + 64)
  {
  }

  // ---- the whole forward transform ----

  /** The stages after the quarter trip: too narrow for a vector. */
  lemma StagesUnfold(c: seq<i16>)
    requires |c| == 256
    ensures Stages(c, 128, 1) == Stages(QuarterStages16(HeadStages(c)), 8, 16)
    ensures Stages(c, 128, 1) == Stages(QuarterStages8(HeadStages(c)), 4, 32)
  {
    hide Stage;
    assert Stages(c, 128, 1) == Stages(Stage(c, 128, 1), 64, 2);
    var head := HeadStages(c);
    assert Stages(Stage(c, 128, 1), 64, 2) == Stages(head, 32, 4);
    assert Stages(head, 32, 4) == Stages(Stage(head, 32, 4), 16, 8);
    assert Stages(Stage(head, 32, 4), 16, 8) == Stages(QuarterStages16(head), 8, 16);
    assert Stages(QuarterStages16(head), 8, 16) == Stages(QuarterStages8(head), 4, 32);
  }

  /** AVX2's `ntt`: same representatives as the scalar transform, on every input. */
  method NttAvx2(c: array<i16>)
    requires c.Length == 256
    modifies c
    ensures c[..] == NttWords(old(c[..]))
  {
    hide Stage, HeadStages, QuarterStages16;
    StagesUnfold(c[..]);
    HeadTrip(Avx2, c);
    QuarterTrip(Avx2, c);
    var k := ScalarNtt.StageInPlace(c, 8, 16);
    k := ScalarNtt.StageInPlace(c, 4, k);
    k := ScalarNtt.StageInPlace(c, 2, k);
    ScalarNtt.ReduceInPlace(c);
  }
}
