/** The portable in-place kernels of `src/algebraic/poly/arch/generic.rs`: the
    nested loops over stride, block and offset, proved to compute exactly the
    words of `NttSpec`. */
module ScalarNtt {
  import opened Words
  import opened Field
  import opened ZetaTables
  import opened NttSpec

  lemma BlockIndex(len: nat, k0: nat, k: nat, start: nat)
    requires k0 * (2 * len) == 256 && k0 <= k && start == (k - k0) * (2 * len) && start < 256
    ensures k < 2 * k0 && start + 2 * len <= 256 && start + 2 * len == (k + 1 - k0) * (2 * len)
  {
    if k >= 2 * k0 {
      ProductMonotone(k0, k - k0, 2 * len);
    }
    ProductMonotone(k + 1 - k0, k0, 2 * len);
  }

  /** `now` is `was` with the block at `start` replaced. */
  predicate BlockReplaced(was: seq<i16>, now: seq<i16>, start: nat, block: seq<i16>) {
    |now| == |was| && start + |block| <= |was| && now == was[..start] + block + was[start + |block|..]
  }

  lemma BlockButterflied(was: seq<i16>, now: seq<i16>, start: nat, len: nat, k: nat, block: seq<i16>)
    requires |now| == |was| && start + 2 * len <= |was| && k < 128 && |block| % 2 == 0 && block == was[start..start + 2 * len]
    requires forall i | start <= i < start + len :: now[i] == Add(was[i], Twiddle(k, was[i + len]))
    requires forall i | start + len <= i < start + 2 * len :: now[i] == Sub(was[i - len], Twiddle(k, was[i]))
    requires forall i | 0 <= i < start :: now[i] == was[i]
    requires forall i | start + 2 * len <= i < |was| :: now[i] == was[i]
    ensures BlockReplaced(was, now, start, Butterflies(block, k))
  {
    hide Add, Sub, Twiddle, Butterflies;
    forall j | 0 <= j < 2 * len ensures now[start + j] == Butterflies(block, k)[j] {
      ButterfliesAt(block, k, j);
    }
    assert now[start..start + 2 * len] == Butterflies(block, k);
  }

  /** One butterfly in place. */
  method ButterflyInPlace(c: array<i16>, j: nat, len: nat, k: nat)
    requires len > 0 && j + len < c.Length && k < 128
    modifies c
    ensures c[j] == Add(old(c[j]), Twiddle(k, old(c[j + len]))) && c[j + len] == Sub(old(c[j]), Twiddle(k, old(c[j + len])))
    ensures forall i | 0 <= i < c.Length && i != j && i != j + len :: c[i] == old(c[i])
  {
    var zeta, zetaBar := Zeta(k), ZetaBarrett(k);
    var t := BarrettConstMul(c[j + len], zeta, zetaBar);
    c[j + len] := Sub(c[j], t);
    c[j] := Add(c[j], t);
  }

  /** The innermost loop: the butterflies of the block at `start`. */
  method ButterflyBlock(c: array<i16>, start: nat, len: nat, k: nat)
    requires len > 0 && start + 2 * len <= c.Length && k < 128
    modifies c
    ensures BlockReplaced(old(c[..]), c[..], start, Butterflies(old(c[..])[start..start + 2 * len], k))
  {
    hide Add, Sub, Twiddle, Butterflies, BlockReplaced;
    ghost var was := c[..];
    for j := start to start + len
      invariant forall i | start <= i < j :: c[i] == Add(was[i], Twiddle(k, was[i + len]))
      invariant forall i | start + len <= i < j + len :: c[i] == Sub(was[i - len], Twiddle(k, was[i]))
      invariant forall i | 0 <= i < start :: c[i] == was[i]
      invariant forall i | j <= i < start + len :: c[i] == was[i]
      invariant forall i | j + len <= i < c.Length :: c[i] == was[i]
    {
      ButterflyInPlace(c, j, len, k);
    }
    BlockButterflied(was, c[..], start, len, k, was[start..start + 2 * len]);
  }

  /** The middle loop: one stage over the whole array. */
  method StageInPlace(c: array<i16>, len: nat, k0: nat) returns (k: nat)
    requires c.Length == 256 && IsStride(len) && k0 * (2 * len) == 256 && k0 <= 64
    modifies c
    ensures c[..] == Stage(old(c[..]), len, k0) && k == 2 * k0
  {
    hide Butterflies;
    hide Stage;
    k := k0;
    ghost var was := c[..];
    var start := 0;
    assert c[..] == [] + was;
    while start < 256
      invariant k0 <= k && start == (k - k0) * (2 * len) <= 256
      invariant c[..][..start] + Stage(c[..][start..], len, k) == Stage(was, len, k0)
    {
      BlockIndex(len, k0, k, start);
      ghost var before := c[..];
      ButterflyBlock(c, start, len, k);
      StageUnfolds(before, c[..], start, len, k);
      k := k + 1;
      start := start + 2 * len;
    }
    StageOfNothing(c[..][start..], len, k);
    assert k == 2 * k0 by {
      EqualTiles(len, k0, k - k0);
    }
  }

  lemma EqualTiles(len: nat, a: nat, b: nat)
    requires len > 0 && a * (2 * len) == b * (2 * len)
    ensures a == b
  {
    var tile: nat := 2 * len;
    if a < b {
      ProductMonotone(a + 1, b, tile);
    } else if b < a {
      ProductMonotone(b + 1, a, tile);
    }
  }

  /** Replacing the first unfinished block leaves the whole stage's result unchanged. */
  lemma StageUnfolds(was: seq<i16>, now: seq<i16>, start: nat, len: nat, k: nat)
    requires len > 0 && start + 2 * len <= |was| && k < 128
    requires BlockReplaced(was, now, start, Butterflies(was[start..start + 2 * len], k))
    ensures now[..start + 2 * len] + Stage(now[start + 2 * len..], len, k + 1) == was[..start] + Stage(was[start..], len, k)
  {
    hide Butterflies;
    var block := Butterflies(was[start..start + 2 * len], k);
    var rest := was[start + 2 * len..];
    assert was[start..][..2 * len] == was[start..start + 2 * len] && was[start..][2 * len..] == rest;
    assert now[..start + 2 * len] == was[..start] + block && now[start + 2 * len..] == rest;
    assert Stage(was[start..], len, k) == block + Stage(rest, len, k + 1);
  }

  /** The stride of the stage after `s` stages. */
  function StrideAt(s: nat): nat
    requires s <= 7
  {
    if s < 7 then NTT_SERIES[s] else 1
  }

  /** `ntt`: the forward transform in place. */
  method Ntt(c: array<i16>)
    requires c.Length == 256
    modifies c
    ensures c[..] == NttWords(old(c[..]))
  {
    hide Stage;
    var k := 1;
    for s := 0 to 7
      invariant k * (2 * StrideAt(s)) == 256 && IsStride(StrideAt(s)) && (s == 0 ==> k == 1)
      invariant Stages(c[..], StrideAt(s), k) == Stages(old(c[..]), 128, 1)
    {
      var len := NTT_SERIES[s];
      assert StrideAt(s + 1) == len / 2 && k <= 64;
      k := StageInPlace(c, len, k);
    }
    ReduceInPlace(c);
  }

  /** The closing loop: every coefficient reduced. */
  method ReduceInPlace(c: array<i16>)
    modifies c
    ensures c[..] == BarrettAll(old(c[..]))
  {
    hide Barrett;
    ghost var was := c[..];
    for i := 0 to c.Length
      invariant c[..] == BarrettAll(was)[..i] + was[i..]
    {
      c[i] := Barrett(c[i]);
    }
  }

  lemma BlockInverseButterflied(was: seq<i16>, now: seq<i16>, start: nat, len: nat, k: nat, reduce: bool)
    requires |now| == |was| && start + 2 * len <= |was| && k < 128
    requires forall i | start <= i < start + len :: now[i] == LowerSum(was[i], was[i + len], reduce)
    requires forall i | start + len <= i < start + 2 * len :: now[i] == Twiddle(k, Sub(was[i], was[i - len]))
    requires forall i | 0 <= i < start :: now[i] == was[i]
    requires forall i | start + 2 * len <= i < |was| :: now[i] == was[i]
    ensures BlockReplaced(was, now, start, InverseButterflies(was[start..start + 2 * len], k, reduce))
  {
    hide LowerSum;
    hide Sub;
    hide Twiddle;
  }

  /** One inverse butterfly in place: the sum is reduced at strides 2 and 16 only. */
  method InverseButterflyInPlace(c: array<i16>, j: nat, len: nat, k: nat)
    requires len > 0 && j + len < c.Length && k < 128
    modifies c
    ensures c[j] == LowerSum(old(c[j]), old(c[j + len]), Reduces(len))
    ensures c[j + len] == Twiddle(k, Sub(old(c[j + len]), old(c[j])))
    ensures forall i | 0 <= i < c.Length && i != j && i != j + len :: c[i] == old(c[i])
  {
    var zeta, zetaBar := Zeta(k), ZetaBarrett(k);
    var t := c[j];
    var sum := Add(t, c[j + len]);
    c[j] := if len == 2 || len == 16 then Barrett(sum) else sum;
    c[j + len] := BarrettConstMul(Sub(c[j + len], t), zeta, zetaBar);
  }

  method InverseButterflyBlock(c: array<i16>, start: nat, len: nat, k: nat)
    requires len > 0 && start + 2 * len <= c.Length && k < 128
    modifies c
    ensures BlockReplaced(old(c[..]), c[..], start,
              InverseButterflies(old(c[..])[start..start + 2 * len], k, Reduces(len)))
  {
    hide LowerSum, Sub, Twiddle, InverseButterflies, BlockReplaced, Reduces;
    ghost var was := c[..];
    for j := start to start + len
      invariant forall i | start <= i < j :: c[i] == LowerSum(was[i], was[i + len], Reduces(len))
      invariant forall i | start + len <= i < j + len :: c[i] == Twiddle(k, Sub(was[i], was[i - len]))
      invariant forall i | 0 <= i < start :: c[i] == was[i]
      invariant forall i | j <= i < start + len :: c[i] == was[i]
      invariant forall i | j + len <= i < c.Length :: c[i] == was[i]
    {
      InverseButterflyInPlace(c, j, len, k);
    }
    BlockInverseButterflied(was, c[..], start, len, k, Reduces(len));
  }

  lemma InverseStageUnfolds(was: seq<i16>, now: seq<i16>, start: nat, len: nat, k: nat)
    requires len > 0 && start + 2 * len <= |was| && k < 128
    requires BlockReplaced(was, now, start, InverseButterflies(was[start..start + 2 * len], k, Reduces(len)))
    ensures now[..start + 2 * len] + InverseStage(now[start + 2 * len..], len, k - 1)
         == was[..start] + InverseStage(was[start..], len, k)
  {
    hide InverseButterflies, Reduces, InverseStage;
    var first, rest := was[start..start + 2 * len], was[start + 2 * len..];
    var block := InverseButterflies(first, k, Reduces(len));
    assert was[start..] == first + rest;
    InverseStageStep(was[start..], first, rest, len, k);
    assert now[..start + 2 * len] == was[..start] + block && now[start + 2 * len..] == rest;
  }

  lemma InverseStageStep(c: seq<i16>, first: seq<i16>, rest: seq<i16>, len: nat, k: nat)
    requires len > 0 && |first| == 2 * len && c == first + rest && k < 128
    ensures InverseStage(c, len, k) == InverseButterflies(first, k, Reduces(len)) + InverseStage(rest, len, k - 1)
  {
    assert c[..2 * len] == first && c[2 * len..] == rest;
  }

  lemma InverseStageOfNothing(c: seq<i16>, len: nat, k: int)
    requires |c| == 0 && len > 0
    ensures InverseStage(c, len, k) == []
  {
  }

  /** One inverse stage over the whole array; its `blocks` zetas are read downwards. */
  method InverseStageInPlace(c: array<i16>, len: nat, k0: nat, ghost blocks: nat) returns (k: nat)
    requires c.Length == 256 && IsStride(len) && blocks * (2 * len) == 256 && blocks <= 64
    requires k0 == 2 * blocks - 1
    modifies c
    ensures c[..] == InverseStage(old(c[..]), len, k0) && k == blocks - 1
  {
    hide InverseButterflies;
    hide InverseStage;
    hide Reduces;
    k := k0;
    ghost var was := c[..];
    var start := 0;
    assert c[..] == [] + was;
    assert blocks > 0;
    while start < 256
      invariant blocks - 1 <= k <= k0 && start == (k0 - k) * (2 * len) <= 256
      invariant c[..][..start] + InverseStage(c[..][start..], len, k) == InverseStage(was, len, k0)
    {
      BlockIndex(len, blocks, blocks + (k0 - k), start);
      ghost var before := c[..];
      InverseButterflyBlock(c, start, len, k);
      InverseStageUnfolds(before, c[..], start, len, k);
      k := k - 1;
      start := start + 2 * len;
    }
    InverseStageOfNothing(c[..][start..], len, k);
    EqualTiles(len, blocks, k0 - k);
  }

  /** The stride already covered, and the next zeta index, after `s` inverse stages. */
  const STRIDES_DONE: seq<nat> := [1, 2, 4, 8, 16, 32, 64, 128]
  const NEXT_INDEX: seq<nat> := [127, 63, 31, 15, 7, 3, 1, 0]

  lemma InverseSchedule(s: nat)
    requires s < 7
    ensures NTT_SERIES[6 - s] == STRIDES_DONE[s + 1] && STRIDES_DONE[s] == NTT_SERIES[6 - s] / 2
    ensures IsStride(NTT_SERIES[6 - s]) && NTT_SERIES[6 - s] >= 2
    ensures var blocks := (NEXT_INDEX[s] + 1) / 2;
      blocks * (2 * NTT_SERIES[6 - s]) == 256 && 1 <= blocks <= 64
      && NEXT_INDEX[s] == 2 * blocks - 1 && NEXT_INDEX[s + 1] == blocks - 1
      && 2 * NEXT_INDEX[s + 1] + 1 == NEXT_INDEX[s]
  {
  }

  /** `ntt_inverse`: the inverse transform in place. */
  method InverseNtt(c: array<i16>)
    requires c.Length == 256
    modifies c
    ensures c[..] == InverseNttWords(old(c[..]))
  {
    hide InverseStage;
    ghost var was := c[..];
    var k := 127;
    for s := 0 to 7
      invariant k == NEXT_INDEX[s]
      invariant c[..] == InverseStages(was, STRIDES_DONE[s], 2 * k + 1)
    {
      InverseSchedule(s);
      var len := NTT_SERIES[6 - s];
      k := InverseStageInPlace(c, len, k, (k + 1) / 2);
    }
    hide *;
    ScaleInPlace(c, INVERSE_SCALE);
  }

  /** The closing loop: every coefficient times a constant. */
  method ScaleInPlace(c: array<i16>, b: i16)
    modifies c
    ensures c[..] == MulAll(old(c[..]), b)
  {
    hide Mul;
    ghost var was := c[..];
    for i := 0 to c.Length
      invariant forall j | 0 <= j < i :: c[j] == Mul(was[j], b)
      invariant forall j | i <= j < c.Length :: c[j] == was[j]
    {
      c[i] := Mul(c[i], b);
    }
  }
}
