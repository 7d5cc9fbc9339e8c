/** The forward and inverse transforms on 16-bit words, exactly as the program
    computes them: every intermediate representative, not only its residue.

    Two readings of one computation are related here. Stage by stage is how the
    portable kernel walks the array; depth first, one block at a time, is how the
    merged SIMD trips and the algebra see it. */
module NttSpec {
  import opened Words
  import opened Zq
  import opened Polynomials
  import opened Field
  import opened ZetaTables
  import opened Transform

  /** The residue classes a word array stands for. */
  function Residues(c: seq<i16>): (p: Poly)
    ensures |p| == |c|
  {
    seq(|c|, i requires 0 <= i < |c| => Residue(c[i]))
  }

  predicate Bounded(c: seq<i16>, bound: int) {
    forall i :: 0 <= i < |c| ==> Abs(c[i]) <= bound
  }

  // ---- forward ----

  /** The twiddled half of a butterfly. */
  function Twiddle(k: nat, x: i16): (r: i16)
    requires k < 128
    ensures Residue(r) == Times(Residue(x), Zeta(k)) && Abs(r) < Q
  {
    ResidueOfZq(Zeta(k));
    BarrettConstMul(x, Zeta(k), ZetaBarrett(k))
  }

  /** All butterflies of one block: its two halves under one zeta. */
  function Butterflies(block: seq<i16>, k: nat): (r: seq<i16>)
    requires |block| % 2 == 0 && k < 128
    ensures |r| == |block|
  {
    seq(|block|, j requires 0 <= j < |block| => ButterflyWord(block, k, j))
  }

  /** Word `j` of a block's butterflies. */
  function ButterflyWord(block: seq<i16>, k: nat, j: nat): i16
    requires |block| % 2 == 0 && k < 128 && j < |block|
  {
    var h := |block| / 2;
    if j < h then Add(block[j], Twiddle(k, block[j + h])) else Sub(block[j - h], Twiddle(k, block[j]))
  }

  lemma ButterfliesAt(a: seq<i16>, m: nat, j: nat)
    requires |a| % 2 == 0 && m < 128 && j < |a|
    ensures j < |a| / 2 ==> Butterflies(a, m)[j] == Add(a[j], Twiddle(m, a[j + |a| / 2]))
    ensures j >= |a| / 2 ==> Butterflies(a, m)[j] == Sub(a[j - |a| / 2], Twiddle(m, a[j]))
  {
    hide Twiddle;
    hide Add;
    hide Sub;
  }

  /** One stage at stride `len`: consecutive blocks take consecutive zetas. */
  function Stage(c: seq<i16>, len: nat, k: nat): (r: seq<i16>)
    requires len > 0
    ensures |r| == |c|
    decreases |c|
  {
    if |c| < 2 * len || k >= 128 then c
    else Butterflies(c[..2 * len], k) + Stage(c[2 * len..], len, k + 1)
  }

  /** The strides, in forward order. */
  const NTT_SERIES: seq<nat> := [128, 64, 32, 16, 8, 4, 2]

  /** The stages from stride `len` down to 2. */
  function Stages(c: seq<i16>, len: nat, k: nat): (r: seq<i16>)
    ensures |r| == |c|
    decreases len
  {
    if len < 2 then c else Stages(Stage(c, len, k), len / 2, 2 * k)
  }

  function BarrettAll(c: seq<i16>): (r: seq<i16>)
    ensures |r| == |c|
  {
    seq(|c|, i requires 0 <= i < |c| => Barrett(c[i]))
  }

  /** `ntt`: seven stages, then one reduction of every coefficient. */
  function NttWords(c: seq<i16>): (r: seq<i16>)
    ensures |r| == |c|
  {
    BarrettAll(Stages(c, 128, 1))
  }

  /** The same transform, one subtree at a time. */
  function NttTree(m: nat, a: seq<i16>): (r: seq<i16>)
    requires IsNode(m, |a|)
    ensures |r| == |a|
    decreases |a|
  {
    if |a| == 2 then a
    else
      NodeChildren(m, |a|);
      var b := Butterflies(a, m);
      NttTree(2 * m, b[..|a| / 2]) + NttTree(2 * m + 1, b[|a| / 2..])
  }

  // ---- inverse ----

  /** `NTT_INVERSE_SCALE`: 128^-1 * R^2 mod q. */
  const INVERSE_SCALE: i16 := 1441

  /** The untwiddled half of an inverse butterfly. */
  function LowerSum(a: i16, b: i16, reduce: bool): i16 {
    if reduce then Barrett(Add(a, b)) else Add(a, b)
  }

  function InverseButterflies(block: seq<i16>, k: nat, reduce: bool): (r: seq<i16>)
    requires |block| % 2 == 0 && k < 128
    ensures |r| == |block|
  {
    var h := |block| / 2;
    seq(|block|, j requires 0 <= j < |block| =>
      if j < h then LowerSum(block[j], block[j + h], reduce) else Twiddle(k, Sub(block[j], block[j - h])))
  }

  lemma InverseButterfliesAt(a: seq<i16>, k: nat, reduce: bool, j: nat)
    requires |a| % 2 == 0 && k < 128 && j < |a|
    ensures j < |a| / 2 ==> InverseButterflies(a, k, reduce)[j] == LowerSum(a[j], a[j + |a| / 2], reduce)
    ensures j >= |a| / 2 ==> InverseButterflies(a, k, reduce)[j] == Twiddle(k, Sub(a[j], a[j - |a| / 2]))
  {
    hide Twiddle;
    hide LowerSum;
    hide Sub;
  }

  /** Only the stages at strides 2 and 16 reduce their sums. */
  predicate Reduces(len: nat) {
    len == 2 || len == 16
  }

  function InverseStage(c: seq<i16>, len: nat, k: int): (r: seq<i16>)
    requires len > 0
    ensures |r| == |c|
    decreases |c|
  {
    if |c| < 2 * len || k < 0 || k >= 128 then c
    else InverseButterflies(c[..2 * len], k, Reduces(len)) + InverseStage(c[2 * len..], len, k - 1)
  }

  /** The inverse stages from stride 2 up to `len`, whose first zeta index is `k`. */
  function InverseStages(c: seq<i16>, len: nat, k: int): (r: seq<i16>)
    ensures |r| == |c|
    decreases len
  {
    if len < 2 then c else InverseStage(InverseStages(c, len / 2, 2 * k + 1), len, k)
  }

  /** `compress` and `decompress` of every coefficient, with `scale` = 2^d. */
  function CompressAll(f: RqWords, scale: nat): (values: seq<nat>)
    requires 1 < scale <= 0x1000
    ensures |values| == 256
  {
    seq(256, i requires 0 <= i < 256 => Compress(f[i], scale))
  }

  function DecompressAll(values: seq<nat>, scale: nat): (f: RqWords)
    requires |values| == 256 && 1 < scale <= 0x1000 && scale % 2 == 0 && forall i | 0 <= i < 256 :: values[i] < scale
  {
    seq(256, i requires 0 <= i < 256 => Decompress(values[i], scale))
  }

  function MulAll(c: seq<i16>, b: i16): (r: seq<i16>)
    ensures |r| == |c|
  {
    seq(|c|, i requires 0 <= i < |c| => Mul(c[i], b))
  }

  /** `ntt_inverse`: seven stages, then the final scale. */
  function InverseNttWords(c: seq<i16>): (r: seq<i16>)
    ensures |r| == |c|
  {
    MulAll(InverseStages(c, 128, 1), INVERSE_SCALE)
  }

  function InverseTree(k: nat, x: seq<i16>): (r: seq<i16>)
    requires IsNode(k, |x|)
    ensures |r| == |x|
    decreases |x|
  {
    if |x| == 2 then x
    else
      NodeChildren(k, |x|);
      InverseButterflies(InverseTree(2 * k + 1, x[..|x| / 2]) + InverseTree(2 * k, x[|x| / 2..]), k, Reduces(|x| / 2))
  }

  // ---- stage order and tree order agree ----

  lemma BlockArithmetic(n: nat, len: nat)
    ensures n > 0 ==> (n - 1) * (2 * len) == n * (2 * len) - 2 * len && n * (2 * len) >= 2 * len
    ensures len % 2 == 0 ==> (2 * n) * (2 * (len / 2)) == n * (2 * len)
  {
    if n > 0 {
      Distributes(n, 1, 2 * len);
      ProductMonotone(1, n, 2 * len);
    }
    if len % 2 == 0 {
      Doubled(n, len);
    }
  }

  lemma {:induction false} StageConcat(a: seq<i16>, b: seq<i16>, len: nat, k: nat, n: nat)
    requires len > 0 && |a| == n * (2 * len)
    ensures Stage(a + b, len, k) == Stage(a, len, k) + Stage(b, len, k + n)
    decreases n
  {
    hide Stage;
    BlockArithmetic(n, len);
    if n == 0 {
      assert a == [] && a + b == b;
      StageOfNothing(a, len, k);
    } else if k >= 128 {
      StageOfNothing(a, len, k);
      StageOfNothing(b, len, k + n);
      StageOfNothing(a + b, len, k);
    } else {
      var first, rest := a[..2 * len], a[2 * len..];
      assert a + b == first + (rest + b);
      StageStep(a, first, rest, len, k);
      StageStep(a + b, first, rest + b, len, k);
      StageConcat(rest, b, len, k + 1, n - 1);
    }
  }

  lemma StageOfNothing(c: seq<i16>, len: nat, k: nat)
    requires len > 0 && (c == [] || k >= 128)
    ensures Stage(c, len, k) == c
  {
  }

  lemma StageStep(c: seq<i16>, first: seq<i16>, rest: seq<i16>, len: nat, k: nat)
    requires len > 0 && |first| == 2 * len && c == first + rest && k < 128
    ensures Stage(c, len, k) == Butterflies(first, k) + Stage(rest, len, k + 1)
  {
    assert c[..2 * len] == first && c[2 * len..] == rest;
  }

  /** A stride the stages visit: a power of two up to 128, or 1 after the last. */
  predicate IsStride(len: nat) {
    len == 128 || len == 64 || len == 32 || len == 16 || len == 8 || len == 4 || len == 2 || len == 1
  }

  lemma {:induction false} StagesConcat(a: seq<i16>, b: seq<i16>, len: nat, k: nat, n: nat)
    requires IsStride(len) && |a| == n * (2 * len)
    ensures Stages(a + b, len, k) == Stages(a, len, k) + Stages(b, len, k + n)
    decreases len
  {
    hide Stage;
    if len >= 2 {
      BlockArithmetic(n, len);
      StageConcat(a, b, len, k, n);
      StagesConcat(Stage(a, len, k), Stage(b, len, k + n), len / 2, 2 * k, 2 * n);
    }
  }

  lemma OneBlock(a: seq<i16>, len: nat, k: nat)
    requires |a| == 2 * len && len > 0 && k < 128
    ensures Stage(a, len, k) == Butterflies(a, k)
  {
    hide Butterflies;
    assert a[..2 * len] == a;
    assert Stage(a[2 * len..], len, k + 1) == [];
  }

  /** Running the stages over a whole block equals finishing its subtrees one by one. */
  lemma {:induction false} StagesAreTree(m: nat, a: seq<i16>)
    requires IsNode(m, |a|)
    ensures Stages(a, |a| / 2, m) == NttTree(m, a)
    decreases |a|
  {
    hide Butterflies, Stage, Stages, NttTree;
    if |a| == 2 {
      SmallestBlock(m, a);
    } else {
      NodeChildren(m, |a|);
      var h := |a| / 2;
      OneBlock(a, h, m);
      StagesStep(a, h, m);
      TreeStep(m, a);
      var b := Butterflies(a, m);
      var low, high := b[..h], b[h..];
      assert b == low + high && h == 2 * (h / 2);
      StagesConcat(low, high, h / 2, 2 * m, 1);
      StagesAreTree(2 * m, low);
      StagesAreTree(2 * m + 1, high);
    }
  }

  lemma SmallestBlock(m: nat, a: seq<i16>)
    requires IsNode(m, |a|) && |a| == 2
    ensures Stages(a, |a| / 2, m) == NttTree(m, a) == InverseTree(m, a) == InverseStages(a, |a| / 2, m) == a
  {
  }

  lemma StagesStep(c: seq<i16>, len: nat, k: nat)
    requires len >= 2
    ensures Stages(c, len, k) == Stages(Stage(c, len, k), len / 2, 2 * k)
  {
  }

  lemma TreeStep(m: nat, a: seq<i16>)
    requires IsNode(m, |a|) && |a| != 2
    ensures m < 128 && |a| % 2 == 0 && IsNode(2 * m, |a| / 2) && IsNode(2 * m + 1, |a| / 2)
    ensures var b := Butterflies(a, m);
      NttTree(m, a) == NttTree(2 * m, b[..|a| / 2]) + NttTree(2 * m + 1, b[|a| / 2..])
  {
    NodeChildren(m, |a|);
  }

  lemma {:induction false} InverseStageConcat(a: seq<i16>, b: seq<i16>, len: nat, k: int, n: nat)
    requires len > 0 && |a| == n * (2 * len) && n <= k + 1 && k < 128
    ensures InverseStage(a + b, len, k) == InverseStage(a, len, k) + InverseStage(b, len, k - n)
    decreases n
  {
    hide InverseButterflies;
    BlockArithmetic(n, len);
    if n == 0 {
      assert a + b == b;
    } else {
      assert (a + b)[..2 * len] == a[..2 * len];
      assert (a + b)[2 * len..] == a[2 * len..] + b;
      InverseStageConcat(a[2 * len..], b, len, k - 1, n - 1);
    }
  }

  lemma {:induction false} InverseStagesConcat(a: seq<i16>, b: seq<i16>, len: nat, k: int, n: nat)
    requires IsStride(len) && |a| == n * (2 * len) && n <= k + 1 && k < 256 / len
    ensures InverseStages(a + b, len, k) == InverseStages(a, len, k) + InverseStages(b, len, k - n)
    decreases len
  {
    hide InverseStage;
    if len >= 2 {
      BlockArithmetic(n, len);
      InverseStagesConcat(a, b, len / 2, 2 * k + 1, 2 * n);
      InverseStageConcat(InverseStages(a, len / 2, 2 * k + 1), InverseStages(b, len / 2, 2 * (k - n) + 1), len, k, n);
    }
  }

  lemma OneInverseBlock(a: seq<i16>, len: nat, k: nat)
    requires |a| == 2 * len && len > 0 && k < 128
    ensures InverseStage(a, len, k) == InverseButterflies(a, k, Reduces(len))
  {
    hide InverseButterflies;
    assert a[..2 * len] == a;
    assert InverseStage(a[2 * len..], len, k - 1) == [];
  }

  lemma InverseStagesStep(c: seq<i16>, len: nat, k: int)
    requires len >= 2
    ensures InverseStages(c, len, k) == InverseStage(InverseStages(c, len / 2, 2 * k + 1), len, k)
  {
  }

  lemma InverseTreeStep(k: nat, x: seq<i16>)
    requires IsNode(k, |x|) && |x| != 2
    ensures k < 128 && IsNode(2 * k, |x| / 2) && IsNode(2 * k + 1, |x| / 2)
    ensures var low, high := InverseTree(2 * k + 1, x[..|x| / 2]), InverseTree(2 * k, x[|x| / 2..]);
      InverseTree(k, x) == InverseButterflies(low + high, k, Reduces(|x| / 2))
  {
    NodeChildren(k, |x|);
  }

  lemma {:induction false} InverseStagesAreTree(k: nat, x: seq<i16>)
    requires IsNode(k, |x|)
    ensures InverseStages(x, |x| / 2, k) == InverseTree(k, x)
    decreases |x|
  {
    hide InverseButterflies, InverseStage, InverseStages, InverseTree;
    if |x| == 2 {
      SmallestBlock(k, x);
    } else {
      NodeChildren(k, |x|);
      var h := |x| / 2;
      var low, high := x[..h], x[h..];
      assert x == low + high && h == 2 * (h / 2);
      InverseStagesStep(x, h, k);
      InverseTreeStep(k, x);
      InverseStagesConcat(low, high, h / 2, 2 * k + 1, 1);
      InverseStagesAreTree(2 * k + 1, low);
      InverseStagesAreTree(2 * k, high);
      OneInverseBlock(InverseStages(x, h / 2, 2 * k + 1), h, k);
    }
  }
}
