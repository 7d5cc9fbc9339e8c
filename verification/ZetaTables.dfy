/** The twiddle-factor tables of `src/algebraic/poly/arch.rs`, laid out as balanced
    decision trees over the index, and the facts about them that the transforms
    rest on. Each fact is settled here once, entry by entry. */
module ZetaTables {
  import opened Words
  import opened Zq
  import opened Field

  function Pick8(i: nat, a: int, b: int, c: int, d: int, e: int, f: int, g: int, h: int): int {
    if i < 4 then if i < 2 then if i < 1 then a else b else if i < 3 then c else d
    else if i < 6 then if i < 5 then e else f else if i < 7 then g else h
  }

  /** `ZETA_RAW`: the canonical zetas in the order the stages consume them. */
  function Zeta(i: nat): (z: i16)
    requires i < 128
    ensures 0 < z < Q
  {
    if i < 64 then
      if i < 32 then
        if i < 16 then
          if i < 8 then
            Pick8(i - 0, 1, 1729, 2580, 3289, 2642, 630, 1897, 848)
          else
            Pick8(i - 8, 1062, 1919, 193, 797, 2786, 3260, 569, 1746)
        else
          if i < 24 then
            Pick8(i - 16, 296, 2447, 1339, 1476, 3046, 56, 2240, 1333)
          else
            Pick8(i - 24, 1426, 2094, 535, 2882, 2393, 2879, 1974, 821)
      else
        if i < 48 then
          if i < 40 then
            Pick8(i - 32, 289, 331, 3253, 1756, 1197, 2304, 2277, 2055)
          else
            Pick8(i - 40, 650, 1977, 2513, 632, 2865, 33, 1320, 1915)
        else
          if i < 56 then
            Pick8(i - 48, 2319, 1435, 807, 452, 1438, 2868, 1534, 2402)
          else
            Pick8(i - 56, 2647, 2617, 1481, 648, 2474, 3110, 1227, 910)
    else
      if i < 96 then
        if i < 80 then
          if i < 72 then
            Pick8(i - 64, 17, 2761, 583, 2649, 1637, 723, 2288, 1100)
          else
            Pick8(i - 72, 1409, 2662, 3281, 233, 756, 2156, 3015, 3050)
        else
          if i < 88 then
            Pick8(i - 80, 1703, 1651, 2789, 1789, 1847, 952, 1461, 2687)
          else
            Pick8(i - 88, 939, 2308, 2437, 2388, 733, 2337, 268, 641)
      else
        if i < 112 then
          if i < 104 then
            Pick8(i - 96, 1584, 2298, 2037, 3220, 375, 2549, 2090, 1645)
          else
            Pick8(i - 104, 1063, 319, 2773, 757, 2099, 561, 2466, 2594)
        else
          if i < 120 then
            Pick8(i - 112, 2804, 1092, 403, 1026, 1143, 2150, 2775, 886)
          else
            Pick8(i - 120, 1722, 1212, 1874, 1029, 2110, 2935, 885, 2154)
  }

  /** The canonical base-multiplication constants that `GAMMA_MONT` is built from. */
  function GammaRaw(i: nat): (g: i16)
    requires i < 128
    ensures 0 < g < Q
  {
    if i < 64 then
      if i < 32 then
        if i < 16 then
          if i < 8 then
            Pick8(i - 0, 17, 3312, 2761, 568, 583, 2746, 2649, 680)
          else
            Pick8(i - 8, 1637, 1692, 723, 2606, 2288, 1041, 1100, 2229)
        else
          if i < 24 then
            Pick8(i - 16, 1409, 1920, 2662, 667, 3281, 48, 233, 3096)
          else
            Pick8(i - 24, 756, 2573, 2156, 1173, 3015, 314, 3050, 279)
      else
        if i < 48 then
          if i < 40 then
            Pick8(i - 32, 1703, 1626, 1651, 1678, 2789, 540, 1789, 1540)
          else
            Pick8(i - 40, 1847, 1482, 952, 2377, 1461, 1868, 2687, 642)
        else
          if i < 56 then
            Pick8(i - 48, 939, 2390, 2308, 1021, 2437, 892, 2388, 941)
          else
            Pick8(i - 56, 733, 2596, 2337, 992, 268, 3061, 641, 2688)
    else
      if i < 96 then
        if i < 80 then
          if i < 72 then
            Pick8(i - 64, 1584, 1745, 2298, 1031, 2037, 1292, 3220, 109)
          else
            Pick8(i - 72, 375, 2954, 2549, 780, 2090, 1239, 1645, 1684)
        else
          if i < 88 then
            Pick8(i - 80, 1063, 2266, 319, 3010, 2773, 556, 757, 2572)
          else
            Pick8(i - 88, 2099, 1230, 561, 2768, 2466, 863, 2594, 735)
      else
        if i < 112 then
          if i < 104 then
            Pick8(i - 96, 2804, 525, 1092, 2237, 403, 2926, 1026, 2303)
          else
            Pick8(i - 104, 1143, 2186, 2150, 1179, 2775, 554, 886, 2443)
        else
          if i < 120 then
            Pick8(i - 112, 1722, 1607, 1212, 2117, 1874, 1455, 1029, 2300)
          else
            Pick8(i - 120, 2110, 1219, 2935, 394, 885, 2444, 2154, 1175)
  }

  /** `ZETA_BARRETT`: the 15-bit Barrett multiplier of each zeta. */
  function ZetaBarrett(i: nat): (b: i16)
    requires i < 128
    ensures IsBarrettMultiplier(Zeta(i), b)
  {
    (Zeta(i) * 0x8000 + Q / 2) / Q
  }

  /** `GAMMA_MONT`: the gammas in Montgomery form. */
  function GammaMont(i: nat): (g: i16)
    requires i < 128
    ensures Residue(g) == Times(GammaRaw(i), R)
    ensures Abs(g) < Q
  {
    ToMontgomery(New(GammaRaw(i)))
  }

  /** Node `m` of the splitting tree works modulo X^n - Root(m). The root node is
      X^256 + 1; the children of node `m` are X^n - zeta and X^n + zeta for
      zeta = Zeta(m), so below the last stage node 128 + i is X^2 - gamma_i. */
  function Root(m: nat): Zq
    requires 1 <= m < 256
  {
    if m == 1 then Q - 1 else if m % 2 == 0 then Zeta(m / 2) else Q - Zeta(m / 2)
  }

  lemma ZetaSquaresBelow32(m: nat)
    requires 1 <= m < 32
    ensures Times(Zeta(m), Zeta(m)) == Root(m)
  {
  }

  lemma ZetaSquaresBelow64(m: nat)
    requires 32 <= m < 64
    ensures Times(Zeta(m), Zeta(m)) == Root(m)
  {
  }

  lemma ZetaSquaresBelow96(m: nat)
    requires 64 <= m < 96
    ensures Times(Zeta(m), Zeta(m)) == Root(m)
  {
  }

  lemma ZetaSquaresBelow128(m: nat)
    requires 96 <= m < 128
    ensures Times(Zeta(m), Zeta(m)) == Root(m)
  {
  }

  /** Each stage splits: Zeta(m) is a square root of the node's constant. */
  lemma ZetaSquares(m: nat)
    requires 1 <= m < 128
    ensures Times(Zeta(m), Zeta(m)) == Root(m)
  {
    hide *;
    if m < 32 {
      ZetaSquaresBelow32(m);
    } else if m < 64 {
      ZetaSquaresBelow64(m);
    } else if m < 96 {
      ZetaSquaresBelow96(m);
    } else {
      ZetaSquaresBelow128(m);
    }
  }

  /** The first node index of stage `s`: 2^s. */
  predicate IsStageBase(p: nat) {
    p == 1 || p == 2 || p == 4 || p == 8 || p == 16 || p == 32 || p == 64
  }

  lemma ZetaInversesBelow64(p: nat, m: nat)
    requires IsStageBase(p) && p < 64 && p <= m < 2 * p
    ensures Times(Zeta(m), Zeta(3 * p - 1 - m)) == Q - 1
  {
  }

  lemma ZetaInversesBelow96(m: nat)
    requires 64 <= m < 96
    ensures Times(Zeta(m), Zeta(191 - m)) == Q - 1
  {
  }

  /** The zeta an inverse stage uses on a block is minus the inverse of the zeta
      the forward stage used on it. */
  lemma ZetaInverses(p: nat, m: nat)
    requires IsStageBase(p) && p <= m < 2 * p
    ensures Times(Zeta(m), Zeta(3 * p - 1 - m)) == Q - 1
  {
    hide Zeta;
    hide Residue;
    if p < 64 {
      ZetaInversesBelow64(p, m);
    } else if m < 96 {
      ZetaInversesBelow96(m);
    } else {
      ZetaInversesBelow96(191 - m);
      TimesCommutes(Zeta(m), Zeta(191 - m));
    }
  }

  /** The leaves of the splitting tree carry the base-multiplication constants. */
  lemma GammaIsRoot(i: nat)
    requires i < 128
    ensures GammaRaw(i) == Root(128 + i)
  {
  }

  /** The highest set bit. */
  function TopBit(i: nat): (p: nat)
    requires 0 < i < 128
    ensures IsStageBase(p) && p <= i < 2 * p
  {
    if i >= 64 then 64 else if i >= 32 then 32 else if i >= 16 then 16
    else if i >= 8 then 8 else if i >= 4 then 4 else if i >= 2 then 2 else 1
  }

  /** Reversal of the low seven bits: every set bit 2^t moves to 2^(6 - t). */
  function BitRev7(i: nat): nat
    requires i < 128
  {
    if i == 0 then 0 else 64 / TopBit(i) + BitRev7(i - TopBit(i))
  }

  /** Powers of 17, a primitive 256th root of unity mod q. */
  function PowerOf17(e: nat): Zq {
    if e == 0 then 1 else Times(17, PowerOf17(e - 1))
  }

  lemma GammaStepBelow32(i: nat)
    requires i < 32
    ensures GammaRaw(i) == Times(17, if i == 0 then 1 else Root(i))
  {
  }

  lemma GammaStepBelow64(i: nat)
    requires i < 64
    ensures GammaRaw(i) == Times(17, if i == 0 then 1 else Root(i))
  {
    if i < 32 {
      GammaStepBelow32(i);
    }
  }

  lemma GammaStepBelow128(i: nat)
    requires 64 <= i < 128
    ensures GammaRaw(i) == Times(17, Root(i))
  {
  }

  lemma PowerOf17Adds(a: nat, b: nat)
    ensures PowerOf17(a + b) == Times(PowerOf17(a), PowerOf17(b))
  {
    hide Residue;
    if a == 0 {
      ResidueOfZq(PowerOf17(b));
    } else {
      PowerOf17Adds(a - 1, b);
      TimesAssociates(17, PowerOf17(a - 1), PowerOf17(b));
    }
  }

  lemma ZetaProductBelow8(p: nat, j: nat)
    requires IsStageBase(p) && p < 8 && j < p
    ensures Zeta(p + j) == Times(Zeta(p), Zeta(j))
  {
  }

  lemma ZetaProductBelow16(j: nat)
    requires j < 8
    ensures Zeta(8 + j) == Times(Zeta(8), Zeta(j))
  {
  }

  lemma ZetaProductBelow32(j: nat)
    requires j < 16
    ensures Zeta(16 + j) == Times(Zeta(16), Zeta(j))
  {
  }

  lemma ZetaProductBelow64(j: nat)
    requires j < 32
    ensures Zeta(32 + j) == Times(Zeta(32), Zeta(j))
  {
  }

  lemma ZetaProductBelow96(j: nat)
    requires j < 32
    ensures Zeta(64 + j) == Times(Zeta(64), Zeta(j))
  {
  }

  lemma ZetaProductBelow128(j: nat)
    requires 32 <= j < 64
    ensures Zeta(64 + j) == Times(Zeta(64), Zeta(j))
  {
  }

  /** The table is multiplicative along its bit-reversed order. */
  lemma ZetaProduct(p: nat, j: nat)
    requires IsStageBase(p) && j < p
    ensures Zeta(p + j) == Times(Zeta(p), Zeta(j))
  {
    hide Zeta;
    hide Residue;
    if p < 8 {
      ZetaProductBelow8(p, j);
    } else if p == 8 {
      ZetaProductBelow16(j);
    } else if p == 16 {
      ZetaProductBelow32(j);
    } else if p == 32 {
      ZetaProductBelow64(j);
    } else if j < 32 {
      ZetaProductBelow96(j);
    } else {
      ZetaProductBelow128(j);
    }
  }

  lemma {:induction false} ZetaStageBase(p: nat)
    requires IsStageBase(p)
    ensures Zeta(p) == PowerOf17(64 / p)
    decreases 64 - p
  {
    if p == 64 {
      assert PowerOf17(1) == Times(17, PowerOf17(0));
    } else {
      hide Zeta;
      hide Residue;
      ZetaStageBase(2 * p);
      assert 64 / p == 64 / (2 * p) + 64 / (2 * p);
      PowerOf17Adds(64 / (2 * p), 64 / (2 * p));
      ZetaSquares(2 * p);
    }
  }

  /** The table is the one FIPS 203 defines: entry `i` is 17^BitRev7(i). */
  lemma {:induction false} ZetaIsPower(i: nat)
    requires i < 128
    ensures Zeta(i) == PowerOf17(BitRev7(i))
  {
    if i == 0 {
      assert Zeta(0) == 1;
    } else {
      hide Zeta;
      hide Residue;
      hide TopBit;
      var p := TopBit(i);
      ZetaProduct(p, i - p);
      ZetaStageBase(p);
      ZetaIsPower(i - p);
      PowerOf17Adds(64 / p, BitRev7(i - p));
    }
  }

  /** The base-multiplication constants are 17^(2 BitRev7(i) + 1). */
  lemma GammaIsPower(i: nat)
    requires i < 128
    ensures GammaRaw(i) == PowerOf17(2 * BitRev7(i) + 1)
  {
    hide Zeta;
    hide GammaRaw;
    hide Residue;
    ZetaIsPower(i);
    PowerOf17Adds(BitRev7(i), BitRev7(i));
    if i != 0 {
      ZetaSquares(i);
    }
    if i < 64 {
      GammaStepBelow64(i);
    } else {
      GammaStepBelow128(i);
    }
  }
}
