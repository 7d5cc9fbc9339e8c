/** The software-pipelined stride-128 and stride-64 stages
    (`src/algebraic/poly/arch/neon.rs`, the `asm!` blocks), register for register: two
    iterations are in flight at every loop head, and memory ends as the plain butterfly
    stage leaves it. */
module AsmPipelines {
  import opened Words
  import opened Field
  import opened ZetaTables
  import opened NttSpec
  import opened Lanes
  import opened Registers
  import opened SimdNtt

  // ---- instructions on eight-lane registers ----

  function Dup(x: i16): (v: Vec)
    ensures |v| == 8
  {
    seq(8, i => x)
  }

  function VSqrdmulh(a: Vec, b: Vec): (r: Vec)
    requires |a| == |b|
    ensures |r| == |a|
  {
    seq(|a|, i requires 0 <= i < |a| => MulDoubledRounded(a[i], b[i]))
  }

  function VMls(c: Vec, a: Vec, b: Vec): (r: Vec)
    requires |c| == |a| == |b|
    ensures |r| == |a|
  {
    seq(|a|, i requires 0 <= i < |a| => MulSubtract(c[i], a[i], b[i]))
  }

  /** `mul`, `sqrdmulh`, `mls` under one zeta twiddle a register. */
  lemma ChainTwiddles(x: Vec, k: nat)
    requires |x| == 8 && k < 128
    ensures VMls(VMulLow(x, Dup(Zeta(k))), VSqrdmulh(x, Dup(ZetaBarrett(k))), Dup(3329)) == VTwiddle(Neon, x, k)
  {
    hide MulLow, MulDoubledRounded, MulSubtract, Zeta, ZetaBarrett;
  }

  function Load(c: seq<i16>, at: nat): (v: Vec)
    requires at + 8 <= |c|
    ensures |v| == 8
  {
    c[at..at + 8]
  }

  /** `stp`: two adjacent registers, to vectors not written before. */
  method StorePair(c: array<i16>, at: nat, a: Vec, b: Vec, ghost written: set<nat>) returns (ghost nowWritten: set<nat>)
    requires |a| == |b| == 8 && at + 16 <= c.Length && at !in written && at + 8 !in written
    modifies c
    ensures c[at..at + 16] == a + b
    ensures forall j | 0 <= j < c.Length && !(at <= j < at + 16) :: c[j] == old(c[j])
    ensures nowWritten == written + {at, at + 8}
  {
    Store(c, at, a + b);
    nowWritten := written + {at, at + 8};
  }

  // ---- the two in-flight iterations ----

  /** Memory with the first `p` offsets of both halves of the group at `base` finished
      and everything else untouched. */
  ghost predicate Finished(c: seq<i16>, was: seq<i16>, fin: seq<i16>, base: nat, half: nat, p: nat) {
    && |c| == |was| == |fin| && base + 2 * half <= |c| && p <= half
    && forall j | 0 <= j < |c| ::
         c[j] == if base <= j < base + p || base + half <= j < base + half + p then fin[j] else was[j]
  }

  /** The addresses of the vectors of the first `t` iterations. */
  ghost function Vectors(base: nat, half: nat, t: nat): set<nat> {
    if t == 0 then {}
    else
      var p: nat := 16 * (t - 1);
      Vectors(base, half, t - 1) + {base + half + p, base + half + p + 8} + {base + p, base + p + 8}
  }

  /** An iteration's vectors were not written by an earlier one. */
  lemma {:induction false} VectorsAreNew(base: nat, half: nat, t: nat, x: nat)
    requires 16 * t <= half && x in Vectors(base, half, t)
    ensures base <= x < base + 16 * t || base + half <= x < base + half + 16 * t
  {
    if t > 0 && x in Vectors(base, half, t - 1) {
      VectorsAreNew(base, half, t - 1, x);
    }
  }

  /** Every vector of both halves is written. */
  lemma {:induction false} VectorsCover(base: nat, half: nat, t: nat, i: nat)
    requires i < 2 * t
    ensures base + 8 * i in Vectors(base, half, t) && base + half + 8 * i in Vectors(base, half, t)
  {
    if i < 2 * (t - 1) {
      VectorsCover(base, half, t - 1, i);
    }
  }

  /** The stage over one group: `was` with the block at `base` butterflied under zeta k. */
  ghost predicate IsGroupStage(was: seq<i16>, fin: seq<i16>, base: nat, half: nat, k: nat) {
    && |was| == |fin| && base + 2 * half <= |was| && k < 128
    && forall lo | base <= lo < base + half :: IsButterflyPair(was, fin, lo, half, k)
  }

  /** A finished pair of registers is its slice of the stage. */
  lemma PairFinishes(was: seq<i16>, fin: seq<i16>, base: nat, half: nat, k: nat, o: nat)
    requires IsGroupStage(was, fin, base, half, k) && o + 8 <= half
    ensures VAdd(Load(was, base + o), VTwiddle(Neon, Load(was, base + half + o), k)) == Load(fin, base + o)
    ensures VSub(Load(was, base + o), VTwiddle(Neon, Load(was, base + half + o), k)) == Load(fin, base + half + o)
  {
    hide VTwiddle, Add, Sub, Twiddle;
    var low, t := Load(was, base + o), VTwiddle(Neon, Load(was, base + half + o), k);
    var sums, differences := Load(fin, base + o), Load(fin, base + half + o);
    forall i | 0 <= i < 8 ensures Add(low[i], t[i]) == sums[i] && Sub(low[i], t[i]) == differences[i] {
      VTwiddleAt(Neon, Load(was, base + half + o), k, i);
      var lo := base + o + i;
      assert IsButterflyPair(was, fin, lo, half, k);
    }
  }

  lemma Untouched(c: seq<i16>, was: seq<i16>, fin: seq<i16>, base: nat, half: nat, p: nat, o: nat)
    requires Finished(c, was, fin, base, half, p) && p <= o && o + 8 <= half
    ensures Load(c, base + o) == Load(was, base + o) && Load(c, base + half + o) == Load(was, base + half + o)
  {
  }

  lemma Advances(before: seq<i16>, c: seq<i16>, was: seq<i16>, fin: seq<i16>, base: nat, half: nat, p: nat)
    requires Finished(before, was, fin, base, half, p) && p + 16 <= half && |c| == |before|
    requires c[base + p..base + p + 16] == Load(fin, base + p) + Load(fin, base + p + 8)
    requires c[base + half + p..base + half + p + 16] == Load(fin, base + half + p) + Load(fin, base + half + p + 8)
    requires forall j | 0 <= j < |c| && !(base + p <= j < base + p + 16 || base + half + p <= j < base + half + p + 16) :: c[j] == before[j]
    ensures Finished(c, was, fin, base, half, p + 16)
  {
    forall j | 0 <= j < |c|
      ensures c[j] == if base <= j < base + p + 16 || base + half <= j < base + half + p + 16 then fin[j] else was[j]
    {
      if base + p <= j < base + p + 16 {
        assert c[j] == c[base + p..base + p + 16][j - base - p];
      } else if base + half + p <= j < base + half + p + 16 {
        assert c[j] == c[base + half + p..base + half + p + 16][j - base - half - p];
      }
    }
  }

  lemma NextVectors(base: nat, half: nat, t: nat)
    requires 16 * t + 16 <= half
    ensures var p: nat := 16 * t; var w := Vectors(base, half, t);
            && base + p !in w && base + p + 8 !in w && base + half + p !in w && base + half + p + 8 !in w
            && Vectors(base, half, t + 1) == w + {base + half + p, base + half + p + 8} + {base + p, base + p + 8}
  {
    forall x | x in Vectors(base, half, t)
      ensures base <= x < base + 16 * t || base + half <= x < base + half + 16 * t
    {
      VectorsAreNew(base, half, t, x);
    }
  }

  /** Writes the finished registers of iteration p / 16: high halves, then low halves. */
  method StoreIteration(c: array<i16>, base: nat, half: nat, p: nat, ghost t: nat, lo0: Vec, lo1: Vec, hi0: Vec, hi1: Vec,
                        ghost was: seq<i16>, ghost fin: seq<i16>, ghost written: set<nat>) returns (ghost nowWritten: set<nat>)
    requires Finished(c[..], was, fin, base, half, p) && p == 16 * t && p + 16 <= half
    requires lo0 == Load(fin, base + p) && lo1 == Load(fin, base + p + 8)
    requires hi0 == Load(fin, base + half + p) && hi1 == Load(fin, base + half + p + 8)
    requires written == Vectors(base, half, t)
    modifies c
    ensures Finished(c[..], was, fin, base, half, p + 16) && nowWritten == Vectors(base, half, t + 1)
  {
    hide Load, Vectors;
    ghost var before := c[..];
    NextVectors(base, half, t);
    nowWritten := StorePair(c, base + half + p, hi0, hi1, written);
    nowWritten := StorePair(c, base + p, lo0, lo1, nowWritten);
    assert c[..][base + half + p..base + half + p + 16] == hi0 + hi1;
    assert c[..][base + p..base + p + 16] == lo0 + lo1;
    Advances(before, c[..], was, fin, base, half, p);
  }

  /** `ntt_stride128_asm`: a preamble seeds iterations 0 and 1, six passes retire one
      iteration each while starting the next, a postamble drains the last two. */
  method Stride128(c: array<i16>, k: nat) returns (ghost written: set<nat>)
    requires c.Length == 256 && k == 1
    modifies c
    ensures c[..] == Stage(old(c[..]), 128, 1) && written == Vectors(0, 128, 8)
  {
    hide Stage, VTwiddle, VMulLow, VSqrdmulh, VMls, VAdd, VSub, Load, Zeta, ZetaBarrett, Dup, Vectors, Finished, IsGroupStage;
    ghost var was := c[..];
    ghost var fin := Stage(was, 128, 1);
    WholeStage(was);
    NothingFinished(was, fin, 0, 128);
    written := {};
    // Prologue.
    var v28, v29, v30 := Dup(Zeta(k)), Dup(ZetaBarrett(k)), Dup(3329);
    var x9: nat, ptr: nat := 8, 0;
    // Preamble.
    var v16, v17 := Load(c[..], ptr + 144), Load(c[..], ptr + 152);
    var v4, v25 := Load(c[..], ptr + 128), Load(c[..], ptr + 136);
    var v21 := VMulLow(v4, v28);
    var v23 := VSqrdmulh(v25, v29);
    var v0 := VSqrdmulh(v4, v29);
    var v26 := VMulLow(v25, v28);
    v26 := VMls(v26, v23, v30);
    v21 := VMls(v21, v0, v30);
    ChainTwiddles(v4, k);
    ChainTwiddles(v25, k);
    v0, v25 := Load(c[..], ptr), Load(c[..], ptr + 8);
    x9 := x9 - 2;
    while x9 != 0
      invariant x9 <= 6 && ptr == 16 * (6 - x9)
      invariant Finished(c[..], was, fin, 0, 128, ptr) && written == Vectors(0, 128, 6 - x9)
      invariant v0 == Load(was, ptr) && v25 == Load(was, ptr + 8)
      invariant v21 == VTwiddle(Neon, Load(was, 128 + ptr), k) && v26 == VTwiddle(Neon, Load(was, 128 + ptr + 8), k)
      invariant v16 == Load(was, 128 + ptr + 16) && v17 == Load(was, 128 + ptr + 24)
    {
      PairFinishes(was, fin, 0, 128, k, ptr);
      PairFinishes(was, fin, 0, 128, k, ptr + 8);
      Untouched(c[..], was, fin, 0, 128, ptr, ptr + 16);
      Untouched(c[..], was, fin, 0, 128, ptr, ptr + 24);
      Untouched(c[..], was, fin, 0, 128, ptr, ptr + 32);
      Untouched(c[..], was, fin, 0, 128, ptr, ptr + 40);
      ChainTwiddles(v16, k);
      ChainTwiddles(v17, k);
      v23 := VSqrdmulh(v17, v29);
      var v18 := VSub(v25, v26);
      v4 := VAdd(v25, v26);
      v26 := VMulLow(v17, v28);
      var v2 := VSqrdmulh(v16, v29);
      var v5 := VSub(v0, v21);
      var v22 := VAdd(v0, v21);
      v21 := VMulLow(v16, v28);
      v16, v17 := Load(c[..], ptr + 160), Load(c[..], ptr + 168);
      v0, v25 := Load(c[..], ptr + 16), Load(c[..], ptr + 24);
      v26 := VMls(v26, v23, v30);
      v21 := VMls(v21, v2, v30);
      written := StoreIteration(c, 0, 128, ptr, 6 - x9, v22, v4, v5, v18, was, fin, written);
      ptr := ptr + 16;
      x9 := x9 - 1;
    }
    // Postamble.
    PairFinishes(was, fin, 0, 128, k, ptr);
    PairFinishes(was, fin, 0, 128, k, ptr + 8);
    PairFinishes(was, fin, 0, 128, k, ptr + 16);
    PairFinishes(was, fin, 0, 128, k, ptr + 24);
    Untouched(c[..], was, fin, 0, 128, ptr, ptr + 16);
    Untouched(c[..], was, fin, 0, 128, ptr, ptr + 24);
    ChainTwiddles(v16, k);
    ChainTwiddles(v17, k);
    var v18 := VSqrdmulh(v17, v29);
    v23 := VMulLow(v17, v28);
    var v19 := VSqrdmulh(v16, v29);
    v17 := VMulLow(v16, v28);
    var v7 := VSub(v0, v21);
    v21 := VAdd(v0, v21);
    v0 := Load(c[..], ptr + 16);
    var v27 := Load(c[..], ptr + 24);
    var v24 := VSub(v25, v26);
    v23 := VMls(v23, v18, v30);
    v17 := VMls(v17, v19, v30);
    var v3 := VAdd(v25, v26);
    written := StoreIteration(c, 0, 128, ptr, 6, v21, v3, v7, v24, was, fin, written);
    ptr := ptr + 16;
    var v6 := VSub(v27, v23);
    var v1 := VAdd(v27, v23);
    var v20 := VAdd(v0, v17);
    v0 := VSub(v0, v17);
    written := StoreIteration(c, 0, 128, ptr, 7, v20, v1, v0, v6, was, fin, written);
    AllFinished(c[..], was, fin);
  }

  lemma WholeStage(was: seq<i16>)
    requires |was| == 256
    ensures IsGroupStage(was, Stage(was, 128, 1), 0, 128, 1)
  {
    hide Stage, IsButterflyPair;
    forall o | 0 <= o < 0 + 128 ensures IsButterflyPair(was, Stage(was, 128, 1), o, 128, 1) {
      StageAt(was, 128, 1, 1, 0, o);
    }
  }

  lemma NothingFinished(was: seq<i16>, fin: seq<i16>, base: nat, half: nat)
    requires |was| == |fin| && base + 2 * half <= |was|
    ensures Finished(was, was, fin, base, half, 0) && Vectors(base, half, 0) == {}
  {
  }

  lemma AllFinished(c: seq<i16>, was: seq<i16>, fin: seq<i16>)
    requires |c| == 256 && Finished(c, was, fin, 0, 128, 128)
    ensures c == fin
  {
  }

  /** `ntt_stride64_group_asm`: the same schedule over four iterations of one half. */
  method Stride64Group(c: array<i16>, base: nat, k: nat, ghost fin: seq<i16>) returns (ghost written: set<nat>)
    requires c.Length == 256 && base + 128 <= 256 && IsGroupStage(c[..], fin, base, 64, k)
    modifies c
    ensures Finished(c[..], old(c[..]), fin, base, 64, 64) && written == Vectors(base, 64, 4)
  {
    hide VTwiddle, VMulLow, VSqrdmulh, VMls, VAdd, VSub, Load, Zeta, ZetaBarrett, Dup, Vectors, Finished;
    assert k < 128;
    ghost var was := c[..];
    NothingFinished(was, fin, base, 64);
    written := {};
    // Prologue.
    var v28, v29, v30 := Dup(Zeta(k)), Dup(ZetaBarrett(k)), Dup(3329);
    var x9: nat, ptr: nat := 4, base;
    // Preamble.
    var v6, v27 := Load(c[..], ptr), Load(c[..], ptr + 8);
    var v19, v3 := Load(c[..], ptr + 64), Load(c[..], ptr + 72);
    ChainTwiddles(v19, k);
    ChainTwiddles(v3, k);
    var v7 := VSqrdmulh(v3, v29);
    var v4 := VSqrdmulh(v19, v29);
    var v18 := VMulLow(v3, v28);
    var v24 := VMulLow(v19, v28);
    v24 := VMls(v24, v4, v30);
    v19, v4 := Load(c[..], ptr + 80), Load(c[..], ptr + 88);
    v18 := VMls(v18, v7, v30);
    x9 := x9 - 2;
    ghost var p: nat := 0;
    while x9 != 0
      invariant x9 <= 2 && p == 16 * (2 - x9) && ptr == base + p
      invariant Finished(c[..], was, fin, base, 64, p) && written == Vectors(base, 64, 2 - x9)
      invariant v6 == Load(was, base + p) && v27 == Load(was, base + (p + 8))
      invariant v24 == VTwiddle(Neon, Load(was, base + 64 + p), k) && v18 == VTwiddle(Neon, Load(was, base + 64 + (p + 8)), k)
      invariant v19 == Load(was, base + 64 + p + 16) && v4 == Load(was, base + 64 + p + 24)
    {
      PairFinishes(was, fin, base, 64, k, p);
      PairFinishes(was, fin, base, 64, k, p + 8);
      Untouched(c[..], was, fin, base, 64, p, p + 16);
      Untouched(c[..], was, fin, base, 64, p, p + 24);
      Untouched(c[..], was, fin, base, 64, p, p + 32);
      Untouched(c[..], was, fin, base, 64, p, p + 40);
      ChainTwiddles(v19, k);
      ChainTwiddles(v4, k);
      var v1 := VAdd(v27, v18);
      var v22 := VSub(v27, v18);
      v18 := VMulLow(v4, v28);
      v7 := VSqrdmulh(v4, v29);
      var v21 := VAdd(v6, v24);
      var v17 := VSub(v6, v24);
      v6, v27 := Load(c[..], ptr + 16), Load(c[..], ptr + 24);
      v24 := VMulLow(v19, v28);
      v3 := VSqrdmulh(v19, v29);
      v19, v4 := Load(c[..], ptr + 96), Load(c[..], ptr + 104);
      v18 := VMls(v18, v7, v30);
      v24 := VMls(v24, v3, v30);
      written := StoreIteration(c, base, 64, ptr - base, 2 - x9, v21, v1, v17, v22, was, fin, written);
      ptr := ptr + 16;
      p := p + 16;
      x9 := x9 - 1;
    }
    // Postamble.
    PairFinishes(was, fin, base, 64, k, p);
    PairFinishes(was, fin, base, 64, k, p + 8);
    PairFinishes(was, fin, base, 64, k, p + 16);
    PairFinishes(was, fin, base, 64, k, p + 24);
    Untouched(c[..], was, fin, base, 64, p, p + 16);
    Untouched(c[..], was, fin, base, 64, p, p + 24);
    ChainTwiddles(v19, k);
    ChainTwiddles(v4, k);
    v7 := VMulLow(v4, v28);
    var v26 := VSqrdmulh(v4, v29);
    var v17, v23 := Load(c[..], ptr + 16), Load(c[..], ptr + 24);
    v4 := VMulLow(v19, v28);
    var v20 := VSqrdmulh(v19, v29);
    var v22 := VAdd(v27, v18);
    var v2 := VSub(v27, v18);
    v3 := VAdd(v6, v24);
    v7 := VMls(v7, v26, v30);
    v4 := VMls(v4, v20, v30);
    var v0 := VSub(v6, v24);
    written := StoreIteration(c, base, 64, ptr - base, 2, v3, v22, v0, v2, was, fin, written);
    ptr := ptr + 16;
    var v16 := VAdd(v23, v7);
    var v5 := VSub(v23, v7);
    var v25 := VAdd(v17, v4);
    v6 := VSub(v17, v4);
    written := StoreIteration(c, base, 64, ptr - base, 3, v25, v16, v6, v5, was, fin, written);
  }
}
