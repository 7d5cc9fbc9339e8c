/** Base multiplication on the split storage of `TqElement`: evens, then odds.

    The plain product and the cached, accumulated dot product are both proved to
    be the degree-one products of FIPS 203 up to the stray R^-1. */
module BaseMul {
  import opened Words
  import opened Zq
  import opened Polynomials
  import opened Field
  import opened ZetaTables
  import opened Transform
  import opened NttSpec

  // ---- split storage ----

  /** `pack`: natural order to evens-then-odds. */
  function Split<T>(natural: seq<T>): (halves: seq<T>)
    requires |natural| == 256
    ensures |halves| == 256
    ensures Interleave(halves) == natural
  {
    seq(256, i requires 0 <= i < 256 => if i < 128 then natural[2 * i] else natural[2 * (i - 128) + 1])
  }

  /** `unpack`: evens-then-odds back to natural order. */
  function Interleave<T>(halves: seq<T>): (natural: seq<T>)
    requires |halves| == 256
    ensures |natural| == 256
  {
    seq(256, i requires 0 <= i < 256 => halves[i % 2 * 128 + i / 2])
  }

  lemma SplitOfInterleave<T>(halves: seq<T>)
    requires |halves| == 256
    ensures Split(Interleave(halves)) == halves
  {
    hide Split, Interleave;
    var natural := Interleave(halves);
    forall i | 0 <= i < 256 ensures Split(natural)[i] == halves[i] {
      var pair := if i < 128 then i else i - 128;
      InterleaveAt(halves, pair);
      SplitAt(natural, pair);
    }
  }

  lemma SplitAt<T>(natural: seq<T>, i: nat)
    requires |natural| == 256 && i < 128
    ensures Split(natural)[i] == natural[2 * i] && Split(natural)[128 + i] == natural[2 * i + 1]
  {
    hide Interleave;
  }

  method Pack(natural: seq<i16>) returns (halves: array<i16>)
    requires |natural| == 256
    ensures fresh(halves) && halves[..] == Split(natural)
  {
    halves := new i16[256];
    for i := 0 to 128
      invariant forall j | 0 <= j < i :: halves[j] == natural[2 * j]
      invariant forall j | 128 <= j < 128 + i :: halves[j] == natural[2 * (j - 128) + 1]
    {
      halves[i] := natural[2 * i];
      halves[128 + i] := natural[2 * i + 1];
    }
  }

  method Unpack(halves: seq<i16>) returns (natural: array<i16>)
    requires |halves| == 256
    ensures fresh(natural) && natural[..] == Interleave(halves)
  {
    natural := new i16[256];
    for i := 0 to 128
      invariant forall j | 0 <= j < 2 * i :: natural[j] == Interleave(halves)[j]
    {
      natural[2 * i] := halves[i];
      natural[2 * i + 1] := halves[128 + i];
    }
  }

  // ---- degree-one products, slot by slot ----

  lemma LeafProductFormula(w: Zq, x: Poly, y: Poly)
    requires |x| == |y| == 2
    ensures Product(w, x, y)[0] == Plus(Times(x[0], y[0]), Times(w, Times(x[1], y[1])))
    ensures Product(w, x, y)[1] == Plus(Times(x[0], y[1]), Times(x[1], y[0]))
  {
    hide Residue;
    assert Product(w, x[1..][1..], y) == Zero(2);
    var q1 := Product(w, x[1..], y);
    PlusLaws(w, 0, 0);
    PlusLaws(Times(x[1], y[0]), 0, 0);
    PlusLaws(Times(x[1], y[1]), 0, 0);
    assert q1[0] == Times(x[1], y[0]) && q1[1] == Times(x[1], y[1]);
  }

  /** Slot `i` of the degree-one products, whose modulus is X^2 - w. */
  predicate IsSlotProduct(p: Poly, x: Poly, y: Poly, i: nat, w: Zq)
    requires |p| == |x| == |y| && 2 * i + 1 < |x|
  {
    && p[2 * i] == Plus(Times(x[2 * i], y[2 * i]), Times(w, Times(x[2 * i + 1], y[2 * i + 1])))
    && p[2 * i + 1] == Plus(Times(x[2 * i], y[2 * i + 1]), Times(x[2 * i + 1], y[2 * i]))
  }

  lemma {:induction false} PairProductsAt(leaf: nat, x: Poly, y: Poly, i: nat)
    requires 128 <= leaf && |x| == |y| && |x| % 2 == 0 && leaf + |x| / 2 <= 256 && 2 * i + 1 < |x|
    ensures leaf + i < 256 && IsSlotProduct(PairProducts(leaf, x, y), x, y, i, Root(leaf + i))
    decreases i
  {
    hide Root;
    hide Product;
    hide Residue;
    if i == 0 {
      LeafProductFormula(Root(leaf), x[..2], y[..2]);
    } else {
      PairProductsAt(leaf + 1, x[2..], y[2..], i - 1);
    }
  }

  /** The product of two transforms over Z/q. */
  function MultiplyNtts(x: Poly, y: Poly): (r: Poly)
    requires |x| == |y| == 256
    ensures |r| == 256
  {
    PairProducts(128, x, y)
  }

  // ---- multiply ----

  function MultiplyWords(f: seq<i16>, g: seq<i16>): (h: seq<i16>)
    requires |f| == |g| == 256
    ensures |h| == 256
  {
    seq(256, i requires 0 <= i < 256 => if i < 128 then EvenWord(f, g, i) else OddWord(f, g, i - 128))
  }

  function EvenWord(f: seq<i16>, g: seq<i16>, i: nat): i16
    requires |f| == |g| == 256 && i < 128
  {
    Add(Mul(f[i], g[i]), Mul(Mul(f[128 + i], g[128 + i]), GammaMont(i)))
  }

  function OddWord(f: seq<i16>, g: seq<i16>, i: nat): i16
    requires |f| == |g| == 256 && i < 128
  {
    Add(Mul(f[i], g[128 + i]), Mul(f[128 + i], g[i]))
  }

  method Multiply(f: seq<i16>, g: seq<i16>) returns (h: array<i16>)
    requires |f| == |g| == 256
    ensures h[..] == MultiplyWords(f, g)
  {
    hide EvenWord, OddWord;
    h := new i16[256];
    for i := 0 to 128
      invariant forall j | 0 <= j < i :: h[j] == EvenWord(f, g, j)
      invariant forall j | 128 <= j < 128 + i :: h[j] == OddWord(f, g, j - 128)
    {
      MultiplyPair(f, g, h, i);
    }
  }

  /** One degree-one product. */
  method MultiplyPair(f: seq<i16>, g: seq<i16>, h: array<i16>, i: nat)
    requires |f| == |g| == h.Length == 256 && i < 128
    modifies h
    ensures h[i] == EvenWord(f, g, i) && h[128 + i] == OddWord(f, g, i)
    ensures forall j | 0 <= j < 256 && j != i && j != 128 + i :: h[j] == old(h[j])
  {
    hide Mul, Add, GammaMont;
    var gamma := GammaMont(i);
    h[i] := Add(Mul(f[i], g[i]), Mul(Mul(f[128 + i], g[128 + i]), gamma));
    h[128 + i] := Add(Mul(f[i], g[128 + i]), Mul(f[128 + i], g[i]));
  }

  /** The largest representatives whose two-term sums of products cannot wrap. */
  const MULTIPLY_ENTRY_BOUND: nat := 31000

  lemma ProductStaysSmall(a: i16, b: i16)
    requires Abs(a) <= MULTIPLY_ENTRY_BOUND && Abs(b) <= MULTIPLY_ENTRY_BOUND
    ensures Abs(Mul(a, b)) <= 16328
    ensures forall g: i16 | Abs(g) < Q :: Abs(Mul(Mul(a, b), g)) <= 2494
  {
    hide Mul;
    ProductBound(a, b, MULTIPLY_ENTRY_BOUND, MULTIPLY_ENTRY_BOUND);
    forall g: i16 | Abs(g) < Q
      ensures Abs(Mul(Mul(a, b), g)) <= 2494
    {
      ProductBound(Mul(a, b), g, 16328, Q - 1);
    }
  }

  lemma GammaResidue(i: nat)
    requires i < 128
    ensures Times(Residue(GammaMont(i)), R_INVERSE) == Root(128 + i) && Abs(GammaMont(i)) < Q
  {
    hide Zeta;
    hide GammaRaw;
    hide Residue;
    GammaIsRoot(i);
    TimesAssociates(GammaRaw(i), R, R_INVERSE);
    MontgomeryConstants();
    TimesCommutes(GammaRaw(i), 1);
    PlusLaws(GammaRaw(i), 0, 0);
  }

  /** One slot of `multiply`: the degree-one product times R^-1. */
  lemma MultiplySlot(f: seq<i16>, g: seq<i16>, i: nat)
    requires |f| == |g| == 256 && i < 128
    requires Bounded(f, MULTIPLY_ENTRY_BOUND) && Bounded(g, MULTIPLY_ENTRY_BOUND)
    ensures var x0, x1, y0, y1 := Residue(f[i]), Residue(f[128 + i]), Residue(g[i]), Residue(g[128 + i]);
      && Residue(EvenWord(f, g, i)) == Times(R_INVERSE, Plus(Times(x0, y0), Times(Root(128 + i), Times(x1, y1))))
      && Residue(OddWord(f, g, i)) == Times(R_INVERSE, Plus(Times(x0, y1), Times(x1, y0)))
  {
    hide Residue;
    hide Mul;
    hide GammaMont;
    hide Root;
    ProductStaysSmall(f[i], g[i]);
    ProductStaysSmall(f[128 + i], g[128 + i]);
    ProductStaysSmall(f[i], g[128 + i]);
    ProductStaysSmall(f[128 + i], g[i]);
    GammaResidue(i);
    var x0, x1, y0, y1 := Residue(f[i]), Residue(f[128 + i]), Residue(g[i]), Residue(g[128 + i]);
    SlotAlgebra(x0, x1, y0, y1, Residue(GammaMont(i)), Root(128 + i));
  }

  lemma SlotAlgebra(x0: Zq, x1: Zq, y0: Zq, y1: Zq, g: Zq, w: Zq)
    requires Times(g, R_INVERSE) == w
    ensures Plus(Times(Times(x0, y0), R_INVERSE), Times(Times(Times(Times(x1, y1), R_INVERSE), g), R_INVERSE))
         == Times(R_INVERSE, Plus(Times(x0, y0), Times(w, Times(x1, y1))))
    ensures Plus(Times(Times(x0, y1), R_INVERSE), Times(Times(x1, y0), R_INVERSE))
         == Times(R_INVERSE, Plus(Times(x0, y1), Times(x1, y0)))
  {
    hide Residue;
    var r := R_INVERSE;
    var p := Times(x1, y1);
    assert Times(Times(Times(p, r), g), r) == Times(r, Times(w, p)) by {
      TimesAssociates(Times(p, r), g, r);
      TimesAssociates(p, r, w);
      TimesCommutes(p, Times(r, w));
      TimesAssociates(r, w, p);
    }
    TimesCommutes(Times(x0, y0), r);
    TimesCommutes(Times(x0, y1), r);
    TimesCommutes(Times(x1, y0), r);
    TimesDistributes(r, Times(x0, y0), Times(w, p));
    TimesDistributes(r, Times(x0, y1), Times(x1, y0));
  }

  lemma InterleaveAt<T>(halves: seq<T>, i: nat)
    requires |halves| == 256 && i < 128
    ensures Interleave(halves)[2 * i] == halves[i] && Interleave(halves)[2 * i + 1] == halves[128 + i]
  {
    assert 2 * i % 2 * 128 + 2 * i / 2 == i && (2 * i + 1) % 2 * 128 + (2 * i + 1) / 2 == 128 + i;
  }

  lemma PairsDetermine<T>(p: seq<T>, r: seq<T>, n: nat)
    requires |p| == |r| == 2 * n
    requires forall i | 0 <= i < n :: p[2 * i] == r[2 * i] && p[2 * i + 1] == r[2 * i + 1]
    ensures p == r
  {
    forall j | 0 <= j < 2 * n
      ensures p[j] == r[j]
    {
      assert j == 2 * (j / 2) || j == 2 * (j / 2) + 1;
    }
  }

  lemma ResiduesInterleaveAt(c: seq<i16>, i: nat)
    requires |c| == 256 && i < 128
    ensures Residues(Interleave(c))[2 * i] == Residue(c[i])
    ensures Residues(Interleave(c))[2 * i + 1] == Residue(c[128 + i])
  {
    hide Residue;
    hide Interleave;
    InterleaveAt(c, i);
  }

  /** `multiply` is Algorithm 11 of FIPS 203 scaled by R^-1. */
  lemma MultiplyWordsCorrect(f: seq<i16>, g: seq<i16>)
    requires |f| == |g| == 256 && Bounded(f, MULTIPLY_ENTRY_BOUND) && Bounded(g, MULTIPLY_ENTRY_BOUND)
    ensures Residues(Interleave(MultiplyWords(f, g)))
         == Scale(R_INVERSE, MultiplyNtts(Residues(Interleave(f)), Residues(Interleave(g))))
  {
    hide Residue;
    hide Residues;
    hide Interleave;
    hide EvenWord;
    hide OddWord;
    hide PairProducts;
    hide Root;
    var x, y := Residues(Interleave(f)), Residues(Interleave(g));
    var h := MultiplyWords(f, g);
    var left, right := Residues(Interleave(h)), Scale(R_INVERSE, MultiplyNtts(x, y));
    forall i | 0 <= i < 128
      ensures left[2 * i] == right[2 * i] && left[2 * i + 1] == right[2 * i + 1]
    {
      ResiduesInterleaveAt(h, i);
      ResiduesInterleaveAt(f, i);
      ResiduesInterleaveAt(g, i);
      MultiplySlot(f, g, i);
      PairProductsAt(128, x, y, i);
    }
    PairsDetermine(left, right, 128);
  }

  // ---- the cached dot product ----

  /** `mul_cache`: gamma_i * g_(2i+1), in the standard domain. */
  function MulCache(g: seq<i16>): (cache: seq<i16>)
    requires |g| == 256
    ensures |cache| == 128
  {
    seq(128, i requires 0 <= i < 128 => Mul(g[128 + i], GammaMont(i)))
  }

  /** What one component adds to a degree-0 and a degree-1 sum: exact products. */
  function EvenTerm(f: seq<i16>, g: seq<i16>, cache: seq<i16>, i: nat): int
    requires |f| == |g| == 256 && |cache| == 128 && i < 128
  {
    WideningMul(f[i], g[i]) + WideningMul(f[128 + i], cache[i])
  }

  function OddTerm(f: seq<i16>, g: seq<i16>, i: nat): int
    requires |f| == |g| == 256 && i < 128
  {
    WideningMul(f[i], g[128 + i]) + WideningMul(f[128 + i], g[i])
  }

  type TqWords = RqWords
  type CacheWords = c: seq<i16> | |c| == 128 witness seq(128, i => 0)

  function EvenSum(f: seq<TqWords>, g: seq<TqWords>, cache: seq<CacheWords>, i: nat): int
    requires |f| == |g| == |cache| && i < 128
  {
    if |f| == 0 then 0
    else var n := |f| - 1; EvenSum(f[..n], g[..n], cache[..n], i) + EvenTerm(f[n], g[n], cache[n], i)
  }

  function OddSum(f: seq<TqWords>, g: seq<TqWords>, i: nat): int
    requires |f| == |g| && i < 128
  {
    if |f| == 0 then 0
    else var n := |f| - 1; OddSum(f[..n], g[..n], i) + OddTerm(f[n], g[n], i)
  }

  /** `ProductAccumulator`: the two planes of widened sums, updated in place. */
  class ProductAccumulator {
    const even: array<i32>
    const odd: array<i32>

    ghost predicate Valid() {
      even.Length == odd.Length == 128 && even != odd
    }

    /** The planes hold the sums over the components accumulated so far, wrapped to 32 bits. */
    ghost predicate Holds(f: seq<TqWords>, g: seq<TqWords>, cache: seq<CacheWords>)
      requires |f| == |g| == |cache| && Valid()
      reads even, odd
    {
      forall i | 0 <= i < 128 :: even[i] == Wrap32(EvenSum(f, g, cache, i)) && odd[i] == Wrap32(OddSum(f, g, i))
    }

    constructor ()
      ensures Valid() && fresh(even) && fresh(odd) && Holds([], [], [])
    {
      even := new i32[128](i => 0);
      odd := new i32[128](i => 0);
    }

    /** `accumulate`: one more component, raw products, no reduction. */
    method Accumulate(ghost fs: seq<TqWords>, ghost gs: seq<TqWords>, ghost caches: seq<CacheWords>,
                      f: TqWords, g: TqWords, cache: CacheWords)
      requires Valid() && |fs| == |gs| == |caches| && Holds(fs, gs, caches)
      modifies even, odd
      ensures Holds(fs + [f], gs + [g], caches + [cache])
    {
      hide WideningMul, Wrap32, EvenSum, OddSum;
      ghost var wasEven, wasOdd := even[..], odd[..];
      for i := 0 to 128
        invariant forall j | 0 <= j < i :: even[j] == Wrap32(wasEven[j] + Wrap32(EvenTerm(f, g, cache, j)))
        invariant forall j | 0 <= j < i :: odd[j] == Wrap32(wasOdd[j] + Wrap32(OddTerm(f, g, j)))
        invariant forall j | i <= j < 128 :: even[j] == wasEven[j] && odd[j] == wasOdd[j]
      {
        even[i] := Wrap32(even[i] + Wrap32(WideningMul(f[i], g[i]) + WideningMul(f[128 + i], cache[i])));
        odd[i] := Wrap32(odd[i] + Wrap32(WideningMul(f[i], g[128 + i]) + WideningMul(f[128 + i], g[i])));
      }
      forall i | 0 <= i < 128
        ensures even[i] == Wrap32(EvenSum(fs + [f], gs + [g], caches + [cache], i))
        ensures odd[i] == Wrap32(OddSum(fs + [f], gs + [g], i))
      {
        SumsAbsorb(fs, gs, caches, f, g, cache, i);
      }
    }

    /** `reduce`: one Montgomery reduction per coefficient. */
    method Reduce(ghost fs: seq<TqWords>, ghost gs: seq<TqWords>, ghost caches: seq<CacheWords>) returns (h: array<i16>)
      requires Valid() && |fs| == |gs| == |caches| && Holds(fs, gs, caches)
      ensures h[..] == DotWords(fs, gs, caches)
    {
      hide MontgomeryReduce;
      hide Wrap32;
      h := new i16[256];
      for i := 0 to 128
        invariant forall j | 0 <= j < i :: h[j] == MontgomeryReduce(Wrap32(EvenSum(fs, gs, caches, j)))
        invariant forall j | 128 <= j < 128 + i :: h[j] == MontgomeryReduce(Wrap32(OddSum(fs, gs, j - 128)))
      {
        h[i] := MontgomeryReduce(even[i]);
        h[128 + i] := MontgomeryReduce(odd[i]);
      }
    }
  }

  lemma SumsExtend(fs: seq<TqWords>, gs: seq<TqWords>, caches: seq<CacheWords>, f: TqWords, g: TqWords, cache: CacheWords, i: nat)
    requires |fs| == |gs| == |caches| && i < 128
    ensures EvenSum(fs + [f], gs + [g], caches + [cache], i) == EvenSum(fs, gs, caches, i) + EvenTerm(f, g, cache, i)
    ensures OddSum(fs + [f], gs + [g], i) == OddSum(fs, gs, i) + OddTerm(f, g, i)
  {
    hide EvenTerm;
    hide OddTerm;
    var n := |fs|;
    assert (fs + [f])[..n] == fs && (gs + [g])[..n] == gs && (caches + [cache])[..n] == caches;
  }

  /** Wrapping each partial sum gives the wrapped total. */
  lemma Wrap32Absorbs(sum: int, term: int)
    ensures Wrap32(Wrap32(sum) + Wrap32(term)) == Wrap32(sum + term)
  {
    var s, t := (sum - Wrap32(sum)) / 0x1_0000_0000, (term - Wrap32(term)) / 0x1_0000_0000;
    Wrap32Shift(Wrap32(sum) + Wrap32(term), s + t);
  }

  lemma Wrap32Shift(x: int, k: int)
    ensures Wrap32(x + 0x1_0000_0000 * k) == Wrap32(x)
  {
    ModOfShift(x + 0x8000_0000, k, 0x1_0000_0000);
  }

  lemma ModOfShift(x: int, k: int, m: nat)
    requires m == 0x1_0000_0000
    ensures (x + m * k) % m == x % m
  {
    var r := (x + m * k) % m;
    assert r == x - 0x1_0000_0000 * ((x + m * k) / m - k);
  }

  lemma SumsAbsorb(fs: seq<TqWords>, gs: seq<TqWords>, caches: seq<CacheWords>, f: TqWords, g: TqWords, cache: CacheWords, i: nat)
    requires |fs| == |gs| == |caches| && i < 128
    ensures Wrap32(Wrap32(EvenSum(fs, gs, caches, i)) + Wrap32(EvenTerm(f, g, cache, i)))
         == Wrap32(EvenSum(fs + [f], gs + [g], caches + [cache], i))
    ensures Wrap32(Wrap32(OddSum(fs, gs, i)) + Wrap32(OddTerm(f, g, i))) == Wrap32(OddSum(fs + [f], gs + [g], i))
  {
    hide EvenSum, OddSum, EvenTerm, OddTerm, Wrap32;
    SumsExtend(fs, gs, caches, f, g, cache, i);
    AbsorbedTerm(EvenSum(fs, gs, caches, i), EvenTerm(f, g, cache, i), EvenSum(fs + [f], gs + [g], caches + [cache], i));
    AbsorbedTerm(OddSum(fs, gs, i), OddTerm(f, g, i), OddSum(fs + [f], gs + [g], i));
  }

  lemma AbsorbedTerm(sum: int, term: int, total: int)
    requires total == sum + term
    ensures Wrap32(Wrap32(sum) + Wrap32(term)) == Wrap32(total)
  {
    hide Wrap32;
    Wrap32Absorbs(sum, term);
  }

  /** The result of `accumulated_dot`, in split storage. */
  function DotWords(f: seq<TqWords>, g: seq<TqWords>, cache: seq<CacheWords>): (h: seq<i16>)
    requires |f| == |g| == |cache|
    ensures |h| == 256
  {
    seq(256, i requires 0 <= i < 256 => DotWord(f, g, cache, i))
  }

  function DotWord(f: seq<TqWords>, g: seq<TqWords>, cache: seq<CacheWords>, i: nat): i16
    requires |f| == |g| == |cache| && i < 256
  {
    MontgomeryReduce(Wrap32(if i < 128 then EvenSum(f, g, cache, i) else OddSum(f, g, i - 128)))
  }

  /** `accumulated_dot`: one accumulator over all components, one reduction at the end. */
  method AccumulatedDot(f: seq<TqWords>, g: seq<TqWords>, caches: seq<CacheWords>) returns (h: array<i16>)
    requires |f| == |g| == |caches|
    ensures h[..] == DotWords(f, g, caches)
  {
    var acc := new ProductAccumulator();
    for j := 0 to |f|
      invariant acc.Valid() && fresh(acc.even) && fresh(acc.odd)
      invariant acc.Holds(f[..j], g[..j], caches[..j])
    {
      acc.Accumulate(f[..j], g[..j], caches[..j], f[j], g[j], caches[j]);
      assert f[..j] + [f[j]] == f[..j + 1] && g[..j] + [g[j]] == g[..j + 1] && caches[..j] + [caches[j]] == caches[..j + 1];
    }
    assert f[..|f|] == f && g[..|f|] == g && caches[..|f|] == caches;
    h := acc.Reduce(f, g, caches);
  }

  // ---- what the cached dot product computes ----

  /** The natural-order residues of a stored transform. */
  function StoredResidues(c: TqWords): (p: RingPoly) {
    Residues(Interleave(c))
  }

  function StoredVector(cs: seq<TqWords>): (v: seq<RingPoly>)
    ensures |v| == |cs|
  {
    seq(|cs|, j requires 0 <= j < |cs| => StoredResidues(cs[j]))
  }

  /** `canonical`: the representatives in [0, q), re-interleaved to natural order. */
  method Canonical(h: TqWords) returns (natural: array<nat>)
    ensures fresh(natural) && natural[..] == StoredResidues(h)
  {
    hide Value, Residue;
    natural := new nat[256];
    for i := 0 to 128
      invariant forall j | 0 <= j < 2 * i :: natural[j] == StoredResidues(h)[j]
    {
      ResiduesInterleaveAt(h, i);
      natural[2 * i] := Value(h[i]);
      natural[2 * i + 1] := Value(h[128 + i]);
    }
  }

  /** The dot product of two vectors of transforms over Z/q. */
  function Dot(xs: seq<RingPoly>, ys: seq<RingPoly>): (r: RingPoly)
    requires |xs| == |ys|
  {
    if |xs| == 0 then Zero(256)
    else var n := |xs| - 1; AddP(Dot(xs[..n], ys[..n]), MultiplyNtts(xs[n], ys[n]))
  }

  function CachesOf(gs: seq<TqWords>): (caches: seq<CacheWords>)
    ensures |caches| == |gs|
  {
    seq(|gs|, j requires 0 <= j < |gs| => MulCache(gs[j]))
  }

  predicate AllBounded(cs: seq<TqWords>, bound: int) {
    forall j | 0 <= j < |cs| :: Bounded(cs[j], bound)
  }

  /** Entry bounds under which `n` components keep every sum within 12q^2: something a
      caller can check before the call. */
  predicate DotBounds(n: nat, F: nat, G: nat) {
    3328 <= G && n * (2 * (F * G)) <= 12 * Q * Q
  }

  /** Up to four components, one operand within 3q/2 and the other below q. */
  lemma FourComponents(n: nat)
    requires n <= 4
    ensures DotBounds(n, 4993, 3328) && DotBounds(n, 3328, 4993)
  {
  }

  /** A cache entry is gamma times the odd coefficient, below q for every word. */
  lemma CacheSlot(g: TqWords, i: nat)
    requires i < 128
    ensures Residue(MulCache(g)[i]) == Times(Root(128 + i), Residue(g[128 + i]))
    ensures Abs(MulCache(g)[i]) <= 3328
  {
    hide Residue;
    hide Mul;
    hide GammaMont;
    hide Root;
    GammaResidue(i);
    var y, c := Residue(g[128 + i]), Residue(GammaMont(i));
    TimesAssociates(y, c, R_INVERSE);
    TimesCommutes(y, Times(c, R_INVERSE));
    ProductBound(g[128 + i], GammaMont(i), 0x8000, Q - 1);
  }

  lemma ResidueOfTerm(a: i16, b: i16, c: i16, d: i16)
    ensures Residue(WideningMul(a, b) + WideningMul(c, d))
         == Plus(Times(Residue(a), Residue(b)), Times(Residue(c), Residue(d)))
  {
    hide Residue;
    ResidueTimes(a, b);
    ResidueTimes(c, d);
    ResiduePlus(WideningMul(a, b), WideningMul(c, d));
  }

  /** The two sums have the residues `dot` holds in slot `i`. */
  predicate SlotHolds(even: int, odd: int, dot: RingPoly, i: nat)
    requires i < 128
  {
    Residue(even) == dot[2 * i] && Residue(odd) == dot[2 * i + 1]
  }

  /** One component's exact terms have the residues of its slot product. */
  lemma TermsCorrect(f: TqWords, g: TqWords, i: nat)
    requires i < 128
    ensures SlotHolds(EvenTerm(f, g, MulCache(g), i), OddTerm(f, g, i), MultiplyNtts(StoredResidues(f), StoredResidues(g)), i)
  {
    hide Residue;
    hide Residues;
    hide Interleave;
    hide MulCache;
    hide PairProducts;
    hide Root;
    var c := MulCache(g)[i];
    CacheSlot(g, i);
    ResiduesInterleaveAt(f, i);
    ResiduesInterleaveAt(g, i);
    PairProductsAt(128, StoredResidues(f), StoredResidues(g), i);
    ResidueOfTerm(f[i], g[i], f[128 + i], c);
    ResidueOfTerm(f[i], g[128 + i], f[128 + i], g[i]);
    TimesSwap(Residue(f[128 + i]), Root(128 + i), Residue(g[128 + i]));
  }

  lemma SumsStep(f: seq<TqWords>, g: seq<TqWords>, n: nat, i: nat)
    requires |f| == |g| == n + 1 && i < 128
    ensures EvenSum(f, g, CachesOf(g), i)
         == EvenSum(f[..n], g[..n], CachesOf(g[..n]), i) + EvenTerm(f[n], g[n], MulCache(g[n]), i)
    ensures OddSum(f, g, i) == OddSum(f[..n], g[..n], i) + OddTerm(f[n], g[n], i)
  {
    hide MulCache;
    hide EvenTerm;
    hide OddTerm;
    assert CachesOf(g)[..n] == CachesOf(g[..n]);
  }

  lemma DotStep(f: seq<TqWords>, g: seq<TqWords>, n: nat)
    requires |f| == |g| == n + 1
    ensures Dot(StoredVector(f), StoredVector(g))
         == AddP(Dot(StoredVector(f[..n]), StoredVector(g[..n])), MultiplyNtts(StoredResidues(f[n]), StoredResidues(g[n])))
  {
    hide StoredResidues;
    hide MultiplyNtts;
    hide AddP;
    assert StoredVector(f)[..n] == StoredVector(f[..n]) && StoredVector(g)[..n] == StoredVector(g[..n]);
  }

  lemma SlotAdds(even: int, odd: int, dot: RingPoly, e: int, o: int, p: RingPoly, i: nat)
    requires i < 128 && SlotHolds(even, odd, dot, i) && SlotHolds(e, o, p, i)
    ensures SlotHolds(even + e, odd + o, AddP(dot, p), i)
  {
    hide Residue;
    ResiduePlus(even, e);
    ResiduePlus(odd, o);
  }

  lemma AllBoundedSplit(cs: seq<TqWords>, n: nat, bound: int)
    requires |cs| == n + 1 && AllBounded(cs, bound)
    ensures AllBounded(cs[..n], bound) && Bounded(cs[n], bound)
  {
    hide Bounded;
  }

  lemma NoComponents(i: nat)
    requires i < 128
    ensures SlotHolds(EvenSum([], [], CachesOf([]), i), OddSum([], [], i), Dot(StoredVector([]), StoredVector([])), i)
  {
  }

  /** Each slot of the exact sums has the residues of the dot product, for any words. */
  lemma {:induction false} SumsCorrect(f: seq<TqWords>, g: seq<TqWords>, i: nat)
    requires |f| == |g| && i < 128
    ensures SlotHolds(EvenSum(f, g, CachesOf(g), i), OddSum(f, g, i), Dot(StoredVector(f), StoredVector(g)), i)
  {
    hide *;
    if |f| == 0 {
      assert f == [] && g == [];
      NoComponents(i);
    } else {
      var n := |f| - 1;
      SumsCorrect(f[..n], g[..n], i);
      TermsCorrect(f[n], g[n], i);
      SumsStep(f, g, n, i);
      DotStep(f, g, n);
      SlotAdds(EvenSum(f[..n], g[..n], CachesOf(g[..n]), i), OddSum(f[..n], g[..n], i),
               Dot(StoredVector(f[..n]), StoredVector(g[..n])),
               EvenTerm(f[n], g[n], MulCache(g[n]), i), OddTerm(f[n], g[n], i),
               MultiplyNtts(StoredResidues(f[n]), StoredResidues(g[n])), i);
    }
  }

  // ---- how large the sums grow ----

  lemma TermBounds(f: TqWords, g: TqWords, i: nat, F: nat, G: nat)
    requires i < 128 && Bounded(f, F) && Bounded(g, G)
    ensures Abs(OddTerm(f, g, i)) <= 2 * (F * G)
    ensures 3328 <= G ==> Abs(EvenTerm(f, g, MulCache(g), i)) <= 2 * (F * G)
  {
    hide MulCache;
    CacheSlot(g, i);
    var c := MulCache(g)[i];
    assert Abs(f[i]) <= F && Abs(f[128 + i]) <= F && Abs(g[i]) <= G && Abs(g[128 + i]) <= G;
    ProductBound(f[i], g[i], F, G);
    ProductBound(f[i], g[128 + i], F, G);
    ProductBound(f[128 + i], g[i], F, G);
    if 3328 <= G {
      ProductBound(f[128 + i], c, F, G);
    }
  }

  lemma NextBound(n: nat, t: nat, sum: int, term: int)
    requires Abs(sum) <= n * t && Abs(term) <= t
    ensures Abs(sum + term) <= (n + 1) * t
  {
    Distributes(n, 1, t);
  }

  /** Every sum of n components is within n * 2FG; the degree-0 plane needs G >= q - 1,
      the size of a cache entry. */
  lemma {:induction false} SumBounds(f: seq<TqWords>, g: seq<TqWords>, i: nat, F: nat, G: nat)
    requires |f| == |g| && i < 128 && AllBounded(f, F) && AllBounded(g, G)
    ensures Abs(OddSum(f, g, i)) <= |f| * (2 * (F * G))
    ensures 3328 <= G ==> Abs(EvenSum(f, g, CachesOf(g), i)) <= |f| * (2 * (F * G))
  {
    if |f| > 0 {
      var n := |f| - 1;
      AllBoundedSplit(f, n, F);
      AllBoundedSplit(g, n, G);
      SumBounds(f[..n], g[..n], i, F, G);
      SumsStep(f, g, n, i);
      TermBounds(f[n], g[n], i, F, G);
      hide EvenSum, OddSum, EvenTerm, OddTerm, CachesOf, MulCache, AllBounded, Bounded;
      var t := 2 * (F * G);
      NextBound(n, t, OddSum(f[..n], g[..n], i), OddTerm(f[n], g[n], i));
      if 3328 <= G {
        NextBound(n, t, EvenSum(f[..n], g[..n], CachesOf(g[..n]), i), EvenTerm(f[n], g[n], MulCache(g[n]), i));
      }
    }
  }

  /** The vector of `n` components whose every word is `x`. */
  function Constant(n: nat, x: i16): (v: seq<TqWords>)
    ensures |v| == n
  {
    var c: TqWords := seq(256, i => x);
    seq<TqWords>(n, j => c)
  }

  lemma {:induction false} ConstantSum(n: nat, x: i16, y: i16, i: nat)
    requires i < 128
    ensures OddSum(Constant(n, x), Constant(n, y), i) == n * (2 * (x as int * y as int))
  {
    if n > 0 {
      var f, g := Constant(n, x), Constant(n, y);
      assert f[..n - 1] == Constant(n - 1, x) && g[..n - 1] == Constant(n - 1, y);
      ConstantSum(n - 1, x, y, i);
      Distributes(n, 1, 2 * (x as int * y as int));
    }
  }

  /** Every degree-1 sum of `n` components within the entry bounds is within 12q^2. */
  ghost predicate OddSumsWithin(n: nat, F: nat, G: nat) {
    forall f: seq<TqWords>, g: seq<TqWords>, i: nat |
      |f| == |g| == n && i < 128 && AllBounded(f, F) && AllBounded(g, G) :: Abs(OddSum(f, g, i)) <= 12 * Q * Q
  }

  /** Every sum of either plane is. */
  ghost predicate SumsWithin(n: nat, F: nat, G: nat) {
    forall f: seq<TqWords>, g: seq<TqWords>, i: nat |
      |f| == |g| == n && i < 128 && AllBounded(f, F) && AllBounded(g, G) ::
        Abs(OddSum(f, g, i)) <= 12 * Q * Q && Abs(EvenSum(f, g, CachesOf(g), i)) <= 12 * Q * Q
  }

  /** The documented 12q^2 bound holds of the degree-1 plane exactly when n * 2FG does
      not exceed it: for every number of components and any entry bounds. */
  lemma OddSumsWithinIff(n: nat, F: nat, G: nat)
    requires F < 0x8000 && G < 0x8000
    ensures OddSumsWithin(n, F, G) <==> n * (2 * (F * G)) <= 12 * Q * Q
  {
    hide OddSum, EvenSum, CachesOf;
    if n * (2 * (F * G)) <= 12 * Q * Q {
      forall f: seq<TqWords>, g: seq<TqWords>, i: nat |
        |f| == |g| == n && i < 128 && AllBounded(f, F) && AllBounded(g, G)
        ensures Abs(OddSum(f, g, i)) <= 12 * Q * Q
      {
        SumBounds(f, g, i, F, G);
      }
    } else {
      ConstantSum(n, F, G, 0);
      assert AllBounded(Constant(n, F), F) && AllBounded(Constant(n, G), G);
    }
  }

  /** It holds of both planes exactly under `DotBounds`, once the cached operand's bound
      is at least q - 1. */
  lemma SumsWithinIff(n: nat, F: nat, G: nat)
    requires F < 0x8000 && 3328 <= G < 0x8000
    ensures SumsWithin(n, F, G) <==> DotBounds(n, F, G)
  {
    hide OddSum, EvenSum, CachesOf, AllBounded;
    OddSumsWithinIff(n, F, G);
    if DotBounds(n, F, G) {
      forall f: seq<TqWords>, g: seq<TqWords>, i: nat |
        |f| == |g| == n && i < 128 && AllBounded(f, F) && AllBounded(g, G)
        ensures Abs(OddSum(f, g, i)) <= 12 * Q * Q && Abs(EvenSum(f, g, CachesOf(g), i)) <= 12 * Q * Q
      {
        SumBounds(f, g, i, F, G);
      }
    }
  }

  lemma ReducedSum(sum: int, x: Zq)
    requires Abs(sum) <= 12 * Q * Q && Residue(sum) == x
    ensures Wrap32(sum) == sum
    ensures Residue(MontgomeryReduce(Wrap32(sum))) == Times(R_INVERSE, x)
    ensures Abs(MontgomeryReduce(Wrap32(sum))) <= 3694
  {
    hide Residue;
    hide MontgomeryReduce;
    hide Wrap32;
    MontgomeryFitsBound(sum);
    TimesCommutes(x, R_INVERSE);
  }

  /** The cached dot product under entry bounds that keep the sums within 12q^2: the
      single reduction is exact and within 1.2q, and the residues are those of the dot
      product of FIPS 203 times R^-1. */
  lemma DotWordsCorrect(f: seq<TqWords>, g: seq<TqWords>, F: nat, G: nat)
    requires |f| == |g| && F < 0x8000 && G < 0x8000 && DotBounds(|f|, F, G) && AllBounded(f, F) && AllBounded(g, G)
    ensures forall i | 0 <= i < 128 ::
      Abs(EvenSum(f, g, CachesOf(g), i)) <= 12 * Q * Q && Abs(OddSum(f, g, i)) <= 12 * Q * Q
    ensures StoredResidues(DotWords(f, g, CachesOf(g))) == Scale(R_INVERSE, Dot(StoredVector(f), StoredVector(g)))
    ensures Bounded(DotWords(f, g, CachesOf(g)), 3694)
  {
    hide EvenSum, OddSum, Dot, StoredVector, StoredResidues, DotWords, CachesOf, AllBounded, Bounded, Scale;
    SumsWithinIff(|f|, F, G);
    var h := DotWords(f, g, CachesOf(g));
    var left, right := StoredResidues(h), Scale(R_INVERSE, Dot(StoredVector(f), StoredVector(g)));
    hide SumsWithin, DotBounds;
    assert forall i: nat | i < 128 :: SumsFit(f, g, i) by {
      SumsFitEach(f, g, F, G);
    }
    forall i: nat | i < 128
      ensures left[2 * i] == right[2 * i] && left[2 * i + 1] == right[2 * i + 1]
    {
      assert SumsFit(f, g, i);
      DotSlotCorrect(f, g, i);
    }
    PairsDetermine(left, right, 128);
    forall j | 0 <= j < 256
      ensures Abs(h[j]) <= 3694
    {
      var i: nat := if j < 128 then j else j - 128;
      assert SumsFit(f, g, i);
      DotSlotCorrect(f, g, i);
    }
    BoundedFromEntries(h, 3694);
    forall i | 0 <= i < 128
      ensures Abs(EvenSum(f, g, CachesOf(g), i)) <= 12 * Q * Q && Abs(OddSum(f, g, i)) <= 12 * Q * Q
    {
      assert SumsFit(f, g, i);
    }
  }

  /** The two sums of slot `i` are within 12q^2. */
  predicate SumsFit(f: seq<TqWords>, g: seq<TqWords>, i: nat)
    requires |f| == |g| && i < 128
  {
    Abs(EvenSum(f, g, CachesOf(g), i)) <= 12 * Q * Q && Abs(OddSum(f, g, i)) <= 12 * Q * Q
  }

  lemma SumsFitEach(f: seq<TqWords>, g: seq<TqWords>, F: nat, G: nat)
    requires |f| == |g| && SumsWithin(|f|, F, G) && AllBounded(f, F) && AllBounded(g, G)
    ensures forall i: nat | i < 128 :: SumsFit(f, g, i)
  {
    hide EvenSum, OddSum, CachesOf, AllBounded;
  }

  lemma BoundedFromEntries(c: seq<i16>, bound: int)
    requires forall j | 0 <= j < |c| :: Abs(c[j]) <= bound
    ensures Bounded(c, bound)
  {
  }

  lemma DotSlotCorrect(f: seq<TqWords>, g: seq<TqWords>, i: nat)
    requires |f| == |g| && i < 128 && SumsFit(f, g, i)
    ensures var h := DotWords(f, g, CachesOf(g)); var right := Scale(R_INVERSE, Dot(StoredVector(f), StoredVector(g)));
      && StoredResidues(h)[2 * i] == right[2 * i] && StoredResidues(h)[2 * i + 1] == right[2 * i + 1]
      && Abs(h[i]) <= 3694 && Abs(h[128 + i]) <= 3694
  {
    hide CachesOf;
    hide EvenSum;
    hide OddSum;
    hide Dot;
    hide StoredVector;
    hide Residue;
    hide Residues;
    hide Interleave;
    hide MontgomeryReduce;
    hide Wrap32;
    SumsCorrect(f, g, i);
    ReducedSum(EvenSum(f, g, CachesOf(g), i), Dot(StoredVector(f), StoredVector(g))[2 * i]);
    ReducedSum(OddSum(f, g, i), Dot(StoredVector(f), StoredVector(g))[2 * i + 1]);
    ResiduesInterleaveAt(DotWords(f, g, CachesOf(g)), i);
  }

  // ---- the documented accumulator bound ----

  /** With both operands as wide as 3q/2 the sums of four components stay within 18q^2,
      inside the exact range of the reduction. */
  lemma WideSumsReduceExactly(f: seq<TqWords>, g: seq<TqWords>, i: nat)
    requires |f| == |g| <= 4 && i < 128 && AllBounded(f, 4993) && AllBounded(g, 4993)
    ensures Abs(OddSum(f, g, i)) <= 18 * Q * Q && Wrap32(OddSum(f, g, i)) == OddSum(f, g, i)
    ensures MontgomeryFits(Wrap32(OddSum(f, g, i)))
    ensures var even := EvenSum(f, g, CachesOf(g), i);
            Abs(even) <= 18 * Q * Q && Wrap32(even) == even && MontgomeryFits(Wrap32(even))
  {
    SumBounds(f, g, i, 4993, 4993);
    hide OddSum, EvenSum, CachesOf, AllBounded, MontgomeryFits, Wrap32;
    WideSumFits(|f|, OddSum(f, g, i));
    WideSumFits(|f|, EvenSum(f, g, CachesOf(g), i));
  }

  lemma WideSumFits(n: nat, sum: int)
    requires n <= 4 && Abs(sum) <= n * (2 * (4993 * 4993))
    ensures Abs(sum) <= 18 * Q * Q && Wrap32(sum) == sum && MontgomeryFits(Wrap32(sum))
  {
    hide MontgomeryFits, Wrap32;
    MontgomeryFitsBound(sum);
  }

  /** The documented 12q^2 is not met by coefficients within 3q/2: four constant vectors
      of 4993 exceed it. */
  lemma TwelveSquaresExceeded()
    ensures AllBounded(Constant(4, 4993), 4993) && 2 * 4993 <= 3 * Q
    ensures OddSum(Constant(4, 4993), Constant(4, 4993), 0) > 12 * Q * Q && !OddSumsWithin(4, 4993, 4993)
  {
    ConstantSum(4, 4993, 4993, 0);
    OddSumsWithinIff(4, 4993, 4993);
    hide OddSum, OddSumsWithin;
  }

  // ---- the cached dot product and the products it replaces ----

  /** The sum of a vector of polynomials. */
  function SumP(v: seq<RingPoly>): RingPoly {
    if |v| == 0 then Zero(256) else AddP(SumP(v[..|v| - 1]), v[|v| - 1])
  }

  /** Each component's own reduced product. */
  function ProductsOf(f: seq<TqWords>, g: seq<TqWords>): (v: seq<RingPoly>)
    requires |f| == |g|
    ensures |v| == |f|
  {
    seq<RingPoly>(|f|, j requires 0 <= j < |f| => StoredResidues(MultiplyWords(f[j], g[j])))
  }

  /** The accumulated dot product is congruent to the sum of the per-component products. */
  lemma {:induction false} DotIsSumOfProducts(f: seq<TqWords>, g: seq<TqWords>)
    requires |f| == |g| && AllBounded(f, MULTIPLY_ENTRY_BOUND) && AllBounded(g, MULTIPLY_ENTRY_BOUND)
    ensures Scale(R_INVERSE, Dot(StoredVector(f), StoredVector(g))) == SumP(ProductsOf(f, g))
  {
    if |f| == 0 {
      ZeroIsNeutral(Zero(256), R_INVERSE);
    } else {
      var n := |f| - 1;
      AllBoundedSplit(f, n, MULTIPLY_ENTRY_BOUND);
      AllBoundedSplit(g, n, MULTIPLY_ENTRY_BOUND);
      DotIsSumOfProducts(f[..n], g[..n]);
      DotStep(f, g, n);
      MultiplyWordsCorrect(f[n], g[n]);
      assert ProductsOf(f, g)[..n] == ProductsOf(f[..n], g[..n]);
      hide Dot, StoredVector, MultiplyWords, MultiplyNtts, Scale, AddP, Residues, Interleave, AllBounded, Bounded;
      ScaleAdd(R_INVERSE, Dot(StoredVector(f[..n]), StoredVector(g[..n])), MultiplyNtts(StoredResidues(f[n]), StoredResidues(g[n])));
    }
  }
}
