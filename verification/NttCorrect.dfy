/** The word-level transforms are the transforms over Z/q: no 16-bit operation
    wraps, and the residues are those of FIPS 203. */
module NttCorrect {
  import opened Words
  import opened Zq
  import opened Polynomials
  import opened Field
  import opened ZetaTables
  import opened Transform
  import opened NttSpec

  lemma SubtractIsFoldWithMinus(a: Zq, z: Zq, b: Zq)
    requires z != 0
    ensures Minus(a, Times(b, z)) == Plus(a, Times(Q - z, b))
  {
    hide Residue;
    TimesCommutes(b, z);
    NegatedTimes(z, b);
    var s: int := Times(z, b);
    ResidueOfZq(a);
    ResiduePlus(a, 0 - s);
  }

  /** One forward butterfly, exact and with the residues of a split. */
  lemma ButterflyCorrect(x: i16, y: i16, m: nat, bound: nat)
    requires 1 <= m < 128 && Abs(x) <= bound && bound + 3328 < 0x8000
    ensures Add(x, Twiddle(m, y)) == x + Twiddle(m, y) && Sub(x, Twiddle(m, y)) == x - Twiddle(m, y)
    ensures Abs(Add(x, Twiddle(m, y))) <= bound + 3328 && Abs(Sub(x, Twiddle(m, y))) <= bound + 3328
    ensures Residue(Add(x, Twiddle(m, y))) == Plus(Residue(x), Times(Zeta0(m), Residue(y)))
    ensures Residue(Sub(x, Twiddle(m, y))) == Plus(Residue(x), Times(Zeta1(m), Residue(y)))
  {
    hide Residue;
    hide Zeta;
    TimesCommutes(Residue(y), Zeta(m));
    SubtractIsFoldWithMinus(Residue(x), Zeta(m), Residue(y));
  }

  /** One forward block: its adds and subtracts are exact, each half is the remainder
      modulo its own factor, and representatives grow by less than q. */
  lemma ButterfliesCorrect(a: seq<i16>, m: nat, bound: nat)
    requires |a| % 2 == 0 && 1 <= m < 128 && Bounded(a, bound) && bound + 3328 < 0x8000
    ensures var b, h := Butterflies(a, m), |a| / 2;
      && (forall j | 0 <= j < h :: b[j] == a[j] + Twiddle(m, a[j + h]))
      && (forall j | h <= j < 2 * h :: b[j] == a[j - h] - Twiddle(m, a[j]))
      && Residues(b[..h]) == Fold(Residues(a), Zeta0(m))
      && Residues(b[h..]) == Fold(Residues(a), Zeta1(m))
      && Bounded(b, bound + 3328)
  {
    hide Residue, Zeta0, Zeta1, Twiddle, Add, Sub, Butterflies;
    var b, h := Butterflies(a, m), |a| / 2;
    ButterflyWords(a, m, bound, b, h);
    FoldOfWords(a, b[..h], Zeta0(m), h);
    FoldOfWords(a, b[h..], Zeta1(m), h);
  }

  lemma FoldOfWords(a: seq<i16>, half: seq<i16>, z: Zq, h: nat)
    requires |a| == 2 * h && |half| == h
    requires forall j | 0 <= j < h :: Residue(half[j]) == Plus(Residue(a[j]), Times(z, Residue(a[h + j])))
    ensures Residues(half) == Fold(Residues(a), z)
  {
    hide Residue, Plus, Times;
  }

  lemma ButterflyWords(a: seq<i16>, m: nat, bound: nat, b: seq<i16>, h: nat)
    requires |a| == 2 * h && 1 <= m < 128 && Bounded(a, bound) && bound + 3328 < 0x8000 && b == Butterflies(a, m)
    ensures forall j | 0 <= j < h :: b[j] == a[j] + Twiddle(m, a[j + h])
    ensures forall j | h <= j < 2 * h :: b[j] == a[j - h] - Twiddle(m, a[j])
    ensures Bounded(b, bound + 3328)
    ensures forall j | 0 <= j < h :: Residue(b[j]) == Plus(Residue(a[j]), Times(Zeta0(m), Residue(a[h + j])))
    ensures forall j | h <= j < 2 * h :: Residue(b[j]) == Plus(Residue(a[j - h]), Times(Zeta1(m), Residue(a[j])))
  {
    hide Residue, Zeta0, Zeta1, Twiddle, Add, Sub, Butterflies;
    forall j | 0 <= j < h
      ensures b[j] == a[j] + Twiddle(m, a[j + h]) && Abs(b[j]) <= bound + 3328
      ensures Residue(b[j]) == Plus(Residue(a[j]), Times(Zeta0(m), Residue(a[h + j])))
    {
      ButterfliesAt(a, m, j);
      ButterflyCorrect(a[j], a[j + h], m, bound);
    }
    forall j | h <= j < 2 * h
      ensures b[j] == a[j - h] - Twiddle(m, a[j]) && Abs(b[j]) <= bound + 3328
      ensures Residue(b[j]) == Plus(Residue(a[j - h]), Times(Zeta1(m), Residue(a[j])))
    {
      ButterfliesAt(a, m, j);
      ButterflyCorrect(a[j - h], a[j], m, bound);
    }
  }

  /** The number of stages below a block of `n` coefficients. */
  function Level(n: nat): nat {
    if n <= 2 then 0 else 1 + Level(n / 2)
  }

  lemma ResiduesConcat(a: seq<i16>, b: seq<i16>)
    ensures Residues(a + b) == Residues(a) + Residues(b)
  {
    hide Residue;
  }

  lemma BoundedConcat(a: seq<i16>, b: seq<i16>, bound: int)
    requires Bounded(a, bound) && Bounded(b, bound)
    ensures Bounded(a + b, bound)
  {
  }

  lemma BoundedSlices(a: seq<i16>, h: nat, bound: int)
    requires h <= |a| && Bounded(a, bound)
    ensures Bounded(a[..h], bound) && Bounded(a[h..], bound)
  {
  }

  lemma NextLevel(n: nat)
    requires n > 2
    ensures Level(n) == 1 + Level(n / 2)
  {
  }

  lemma NttTreeLeaf(m: nat, a: seq<i16>)
    requires IsNode(m, |a|) && |a| == 2
    ensures NttTree(m, a) == a && Level(2) == 0
  {
  }

  lemma {:induction false} NttTreeCorrect(m: nat, a: seq<i16>, bound: nat)
    requires IsNode(m, |a|) && Bounded(a, bound) && bound + 3328 * Level(|a|) < 0x8000
    ensures Residues(NttTree(m, a)) == Ntt(m, Residues(a))
    ensures Bounded(NttTree(m, a), bound + 3328 * Level(|a|))
    decreases |a|
  {
    hide *;
    if |a| == 2 {
      NttTreeLeaf(m, a);
      NttLeaf(m, Residues(a));
    } else {
      NodeChildren(m, |a|);
      TreeStep(m, a);
      NextLevel(|a|);
      ButterfliesCorrect(a, m, bound);
      var b, h := Butterflies(a, m), |a| / 2;
      BoundedSlices(b, h, bound + 3328);
      NttTreeCorrect(2 * m, b[..h], bound + 3328);
      NttTreeCorrect(2 * m + 1, b[h..], bound + 3328);
      NttStep(m, Residues(a));
      ResiduesConcat(NttTree(2 * m, b[..h]), NttTree(2 * m + 1, b[h..]));
      BoundedConcat(NttTree(2 * m, b[..h]), NttTree(2 * m + 1, b[h..]), bound + 3328 * Level(|a|));
    }
  }

  lemma BarrettAllCorrect(c: seq<i16>)
    ensures Residues(BarrettAll(c)) == Residues(c) && Bounded(BarrettAll(c), 1664)
  {
    hide Residue;
    hide Barrett;
  }

  /** The largest entry representative for which seven lazy stages cannot wrap. */
  const NTT_ENTRY_BOUND: nat := 9471

  /** `ntt` computes Algorithm 9 of FIPS 203 on residues, from any representatives
      within the entry bound, and leaves centered representatives. */
  lemma NttWordsCorrect(c: seq<i16>)
    requires |c| == 256 && Bounded(c, NTT_ENTRY_BOUND)
    ensures Residues(NttWords(c)) == Ntt(1, Residues(c))
    ensures Bounded(NttWords(c), 1664)
  {
    assert Level(256) == 7 && IsNode(1, 256);
    hide *;
    StagesAreTree(1, c);
    NttTreeCorrect(1, c, NTT_ENTRY_BOUND);
    BarrettAllCorrect(Stages(c, 128, 1));
  }

  /** One stage adds at most q - 1 to the representatives. */
  lemma {:induction false} StageGrows(c: seq<i16>, len: nat, k: nat, bound: nat)
    requires len > 0 && k >= 1 && Bounded(c, bound) && bound + 3328 < 0x8000
    ensures Bounded(Stage(c, len, k), bound + 3328)
    decreases |c|
  {
    if |c| < 2 * len || k >= 128 {
      BoundedWeakens(c, bound, bound + 3328);
    } else {
      BoundedSlices(c, 2 * len, bound);
      ButterfliesCorrect(c[..2 * len], k, bound);
      StageGrows(c[2 * len..], len, k + 1, bound);
      hide Butterflies, Bounded;
      BoundedConcat(Butterflies(c[..2 * len], k), Stage(c[2 * len..], len, k + 1), bound + 3328);
    }
  }

  /** The first zeta index of each stage. */
  const FIRST_ZETAS: seq<nat> := [1, 2, 4, 8, 16, 32, 64]

  /** The words after `s` stages. */
  function AfterStages(c: seq<i16>, s: nat): (r: seq<i16>)
    requires s <= 7
    ensures |r| == |c|
  {
    if s == 0 then c else Stage(AfterStages(c, s - 1), NTT_SERIES[s - 1], FIRST_ZETAS[s - 1])
  }

  /** From canonical or noise inputs, coefficients stay below (s + 1)q after stage s, and
      no sum or difference the next stage can form wraps. */
  lemma {:induction false} StageBounds(c: seq<i16>, s: nat)
    requires s <= 7 && Bounded(c, 3328)
    ensures Bounded(AfterStages(c, s), 3328 * (s + 1)) && 3328 * (s + 1) < (s + 1) * Q
    ensures var x := AfterStages(c, s);
      s < 7 ==> forall i, j, m | 0 <= i < |c| && 0 <= j < |c| && 1 <= m < 128 ::
        Add(x[i], Twiddle(m, x[j])) == x[i] + Twiddle(m, x[j]) && Sub(x[i], Twiddle(m, x[j])) == x[i] - Twiddle(m, x[j])
  {
    if s > 0 {
      StageBounds(c, s - 1);
      StageGrows(AfterStages(c, s - 1), NTT_SERIES[s - 1], FIRST_ZETAS[s - 1], 3328 * s);
    }
    var x := AfterStages(c, s);
    hide Stage, Twiddle, Add, Sub, AfterStages;
    if s < 7 {
      forall i, j, m | 0 <= i < |c| && 0 <= j < |c| && 1 <= m < 128
        ensures Add(x[i], Twiddle(m, x[j])) == x[i] + Twiddle(m, x[j]) && Sub(x[i], Twiddle(m, x[j])) == x[i] - Twiddle(m, x[j])
      {
        ButterflyCorrect(x[i], x[j], m, 3328 * (s + 1));
      }
    }
  }

  /** Seven stages are the whole transform. */
  lemma SevenStages(c: seq<i16>)
    ensures AfterStages(c, 7) == Stages(c, 128, 1)
  {
    hide Stage;
    assert Stages(c, 128, 1) == Stages(AfterStages(c, 1), 64, 2);
    assert Stages(AfterStages(c, 1), 64, 2) == Stages(AfterStages(c, 2), 32, 4);
    assert Stages(AfterStages(c, 2), 32, 4) == Stages(AfterStages(c, 3), 16, 8);
    assert Stages(AfterStages(c, 3), 16, 8) == Stages(AfterStages(c, 4), 8, 16);
    assert Stages(AfterStages(c, 4), 8, 16) == Stages(AfterStages(c, 5), 4, 32);
    assert Stages(AfterStages(c, 5), 4, 32) == Stages(AfterStages(c, 6), 2, 64);
    assert Stages(AfterStages(c, 6), 2, 64) == Stages(AfterStages(c, 7), 1, 128);
  }

  /** One inverse butterfly, exact and with the residues of a join. */
  lemma InverseButterflyCorrect(x: i16, y: i16, k: nat, reduce: bool, bound: nat)
    requires k < 128 && Abs(x) <= bound && Abs(y) <= bound && 2 * bound < 0x8000
    ensures Add(x, y) == x + y && Sub(y, x) == y - x
    ensures Abs(LowerSum(x, y, reduce)) <= (if reduce then 1664 else 2 * bound)
    ensures Residue(LowerSum(x, y, reduce)) == Plus(Residue(x), Residue(y))
    ensures Abs(Twiddle(k, Sub(y, x))) <= 3328
    ensures Residue(Twiddle(k, Sub(y, x))) == Times(Zeta(k), Minus(Residue(y), Residue(x)))
  {
    hide Residue;
    hide Zeta;
    hide Barrett;
    TimesCommutes(Minus(Residue(y), Residue(x)), Zeta(k));
  }

  /** How large stored words can be after an inverse stage on words within `bound`. */
  function InverseLimit(reduce: bool, bound: nat): nat {
    if reduce || 2 * bound < 3328 then 3328 else 2 * bound
  }

  /** One inverse block: its adds and subtracts are exact, it joins the residues of its
      halves, and its sums are kept as they are or reduced. */
  lemma InverseButterfliesCorrect(low: seq<i16>, high: seq<i16>, k: nat, reduce: bool, bound: nat)
    requires |low| == |high| && k < 128 && Bounded(low, bound) && Bounded(high, bound) && 2 * bound < 0x8000
    ensures forall j | 0 <= j < |low| :: Add(low[j], high[j]) == low[j] + high[j] && Sub(high[j], low[j]) == high[j] - low[j]
    ensures Residues(InverseButterflies(low + high, k, reduce)) == Join(Residues(low), Residues(high), Zeta(k))
    ensures Bounded(InverseButterflies(low + high, k, reduce), InverseLimit(reduce, bound))
  {
    hide Residue;
    hide Zeta;
    hide Twiddle;
    hide LowerSum;
    hide Add;
    hide Sub;
    hide InverseButterflies;
    var b, h := InverseButterflies(low + high, k, reduce), |low|;
    var limit := InverseLimit(reduce, bound);
    forall j | 0 <= j < h
      ensures Add(low[j], high[j]) == low[j] + high[j] && Sub(high[j], low[j]) == high[j] - low[j]
      ensures Abs(b[j]) <= limit && Residue(b[j]) == Plus(Residue(low[j]), Residue(high[j]))
    {
      InverseButterfliesAt(low + high, k, reduce, j);
      InverseButterflyCorrect(low[j], high[j], k, reduce, bound);
    }
    forall j | h <= j < 2 * h
      ensures Abs(b[j]) <= limit
      ensures Residue(b[j]) == Times(Zeta(k), Minus(Residue(high[j - h]), Residue(low[j - h])))
    {
      InverseButterfliesAt(low + high, k, reduce, j);
      InverseButterflyCorrect(low[j - h], high[j - h], k, reduce, bound);
    }
  }

  /** How large representatives can be once a block of `n` has been joined: twice
      as large per stage, back to 3328 where the sums are reduced, never past 8q. */
  function InverseBound(n: nat): nat {
    if n <= 2 then 16383 else if n == 4 || n == 32 then 3328 else 2 * InverseBound(n / 2)
  }

  lemma InverseBoundFits(m: nat, n: nat)
    requires IsNode(m, n) && n != 2
    ensures 2 * InverseBound(n / 2) < 0x8000
    ensures InverseBound(n) >= InverseLimit(Reduces(n / 2), InverseBound(n / 2))
    ensures InverseBound(256) == 26624 <= 8 * Q
  {
    assert InverseBound(4) == 3328 && InverseBound(8) == 6656 && InverseBound(16) == 13312;
    assert InverseBound(32) == 3328 && InverseBound(64) == 6656 && InverseBound(128) == 13312 && InverseBound(256) == 26624;
  }

  lemma InverseTreeLeaf(k: nat, x: seq<i16>)
    requires IsNode(k, |x|) && |x| == 2
    ensures InverseTree(k, x) == x && InverseBound(2) == 16383
  {
  }

  lemma BoundedWeakens(a: seq<i16>, small: int, large: int)
    requires Bounded(a, small) && small <= large
    ensures Bounded(a, large)
  {
  }

  lemma {:induction false} InverseTreeCorrect(k: nat, x: seq<i16>)
    requires IsNode(k, |x|) && Bounded(x, 16383)
    ensures Residues(InverseTree(k, x)) == InverseNtt(k, Residues(x))
    ensures Bounded(InverseTree(k, x), InverseBound(|x|))
    decreases |x|
  {
    hide *;
    if |x| == 2 {
      InverseTreeLeaf(k, x);
      InverseNttLeaf(k, Residues(x));
    } else {
      NodeChildren(k, |x|);
      InverseTreeStep(k, x);
      InverseBoundFits(k, |x|);
      var h := |x| / 2;
      BoundedSlices(x, h, 16383);
      InverseTreeCorrect(2 * k + 1, x[..h]);
      InverseTreeCorrect(2 * k, x[h..]);
      var low, high := InverseTree(2 * k + 1, x[..h]), InverseTree(2 * k, x[h..]);
      InverseButterfliesCorrect(low, high, k, Reduces(h), InverseBound(h));
      BoundedWeakens(InverseTree(k, x), InverseLimit(Reduces(h), InverseBound(h)), InverseBound(|x|));
      assert x == x[..h] + x[h..];
      ResiduesConcat(x[..h], x[h..]);
      InverseNttStep(k, Residues(x[..h]), Residues(x[h..]));
    }
  }

  // ---- the inverse, stage after stage ----

  /** One inverse stage doubles the representatives, or reduces them. */
  lemma {:induction false} InverseStageGrows(c: seq<i16>, len: nat, k: int, n: nat, bound: nat)
    requires len > 0 && |c| == n * (2 * len) && n <= k + 1 <= 128 && Bounded(c, bound) && 2 * bound < 0x8000
    ensures Bounded(InverseStage(c, len, k), InverseLimit(Reduces(len), bound))
    decreases n
  {
    BlockArithmetic(n, len);
    if n > 0 {
      var first, rest := c[..2 * len], c[2 * len..];
      BoundedSlices(c, 2 * len, bound);
      BoundedSlices(first, len, bound);
      InverseButterfliesCorrect(first[..len], first[len..], k, Reduces(len), bound);
      assert first == first[..len] + first[len..];
      InverseStageGrows(rest, len, k - 1, n - 1, bound);
      hide InverseButterflies, Bounded, Reduces, InverseLimit;
      BoundedConcat(InverseButterflies(first, k, Reduces(len)), InverseStage(rest, len, k - 1), InverseLimit(Reduces(len), bound));
    }
  }

  /** The first zeta index of each inverse stage, and the words' bound before it. */
  const INVERSE_ZETAS: seq<nat> := [127, 63, 31, 15, 7, 3, 1]
  const INVERSE_BOUNDS: seq<nat> := [16383, 3328, 6656, 13312, 3328, 6656, 13312, 26624]

  /** The words after `s` inverse stages. */
  function AfterInverseStages(c: seq<i16>, s: nat): (r: seq<i16>)
    requires s <= 7
    ensures |r| == |c|
  {
    if s == 0 then c else InverseStage(AfterInverseStages(c, s - 1), NTT_SERIES[7 - s], INVERSE_ZETAS[s - 1])
  }

  lemma InverseScheduleFits(s: nat)
    requires 1 <= s <= 7
    ensures var len, k := NTT_SERIES[7 - s], INVERSE_ZETAS[s - 1];
            len > 0 && (k + 1) / 2 * (2 * len) == 256 && k < 128
    ensures 2 * INVERSE_BOUNDS[s - 1] < 0x8000 && INVERSE_BOUNDS[s] <= 8 * Q
    ensures INVERSE_BOUNDS[s] == InverseLimit(Reduces(NTT_SERIES[7 - s]), INVERSE_BOUNDS[s - 1])
  {
    var len, k := NTT_SERIES[7 - s], INVERSE_ZETAS[s - 1];
    if s == 1 { assert len == 2 && k == 127; }
    else if s == 2 { assert len == 4 && k == 63; }
    else if s == 3 { assert len == 8 && k == 31; }
    else if s == 4 { assert len == 16 && k == 15; }
    else if s == 5 { assert len == 32 && k == 7; }
    else if s == 6 { assert len == 64 && k == 3; }
    else { assert len == 128 && k == 1; }
  }

  lemma PairsExact(c: seq<i16>, bound: nat)
    requires Bounded(c, bound) && 2 * bound < 0x8000
    ensures forall i, j | 0 <= i < |c| && 0 <= j < |c| :: Add(c[i], c[j]) == c[i] + c[j] && Sub(c[i], c[j]) == c[i] - c[j]
  {
    forall i, j | 0 <= i < |c| && 0 <= j < |c| ensures Add(c[i], c[j]) == c[i] + c[j] && Sub(c[i], c[j]) == c[i] - c[j] {
      assert Abs(c[i]) <= bound && Abs(c[j]) <= bound;
    }
  }

  /** From any words within 16383, the words stored by every inverse stage are within 8q,
      and no sum or difference the next stage can form wraps. */
  lemma {:induction false} InverseStageBounds(c: seq<i16>, s: nat)
    requires s <= 7 && |c| == 256 && Bounded(c, 16383)
    ensures Bounded(AfterInverseStages(c, s), INVERSE_BOUNDS[s])
    ensures s > 0 ==> INVERSE_BOUNDS[s] <= 8 * Q
    ensures var x := AfterInverseStages(c, s);
      s < 7 ==> forall i, j | 0 <= i < 256 && 0 <= j < 256 :: Add(x[i], x[j]) == x[i] + x[j] && Sub(x[i], x[j]) == x[i] - x[j]
  {
    if s > 0 {
      InverseStageBounds(c, s - 1);
      InverseScheduleFits(s);
      InverseStageGrows(AfterInverseStages(c, s - 1), NTT_SERIES[7 - s], INVERSE_ZETAS[s - 1], (INVERSE_ZETAS[s - 1] + 1) / 2, INVERSE_BOUNDS[s - 1]);
    }
    if s < 7 {
      InverseScheduleFits(s + 1);
      hide Bounded, InverseStage, Add, Sub;
      PairsExact(AfterInverseStages(c, s), INVERSE_BOUNDS[s]);
    }
  }

  /** Seven inverse stages are all of them. */
  lemma SevenInverseStages(c: seq<i16>)
    ensures AfterInverseStages(c, 7) == InverseStages(c, 128, 1)
  {
    hide InverseStage;
    assert InverseStages(c, 2, 127) == AfterInverseStages(c, 1) by {
      assert InverseStages(c, 1, 255) == c;
    }
    assert InverseStages(c, 4, 63) == AfterInverseStages(c, 2);
    assert InverseStages(c, 8, 31) == AfterInverseStages(c, 3);
    assert InverseStages(c, 16, 15) == AfterInverseStages(c, 4);
    assert InverseStages(c, 32, 7) == AfterInverseStages(c, 5);
    assert InverseStages(c, 64, 3) == AfterInverseStages(c, 6);
  }

  lemma MulAllCorrect(c: seq<i16>, b: i16, bound: nat)
    requires Bounded(c, bound)
    ensures Residues(MulAll(c, b)) == Scale(Times(Residue(b), R_INVERSE), Residues(c))
    ensures forall i | 0 <= i < |c| :: 0x1_0000 * Abs(MulAll(c, b)[i]) <= bound * Abs(b) + 0x8000 * Q
  {
    hide Residue;
    hide Mul;
    forall i | 0 <= i < |c|
      ensures Residue(Mul(c[i], b)) == Times(Times(Residue(b), R_INVERSE), Residue(c[i]))
      ensures 0x1_0000 * Abs(Mul(c[i], b)) <= bound * Abs(b) + 0x8000 * Q
    {
      TimesAssociates(Residue(c[i]), Residue(b), R_INVERSE);
      TimesCommutes(Residue(c[i]), Times(Residue(b), R_INVERSE));
      ProductBound(c[i], b, bound, Abs(b));
    }
  }

  /** The factor the inverse transform leaves: R / 128. */
  const INVERSE_FACTOR: Zq := 512

  lemma InverseFactor()
    ensures Times(Residue(INVERSE_SCALE), R_INVERSE) == INVERSE_FACTOR
    ensures INVERSE_FACTOR == Times(R, INVERSE_128)
    ensures Abs(INVERSE_SCALE) == 1441 && IsNode(1, 256)
  {
  }

  /** `ntt_inverse` computes R / 128 times the unscaled inverse transform on
      residues, from any representatives up to 16383, reducing only twice. */
  lemma InverseNttWordsCorrect(c: seq<i16>)
    requires |c| == 256 && Bounded(c, 16383)
    ensures Residues(InverseNttWords(c)) == Scale(INVERSE_FACTOR, InverseNtt(1, Residues(c)))
    ensures Bounded(InverseNttWords(c), 2250)
  {
    hide Residues;
    hide InverseStages;
    hide InverseTree;
    hide InverseNtt;
    hide InverseBound;
    hide MulAll;
    hide Scale;
    InverseFactor();
    InverseStagesAreTree(1, c);
    InverseTreeCorrect(1, c);
    InverseBoundFits(1, 256);
    MulAllCorrect(InverseTree(1, c), INVERSE_SCALE, 26624);
  }
}
