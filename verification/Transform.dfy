/** The number-theoretic transform over Z/q as a splitting tree: node `m` holds a
    remainder modulo X^n - Root(m) and splits it modulo X^(n/2) - zeta and
    X^(n/2) + zeta. This is the mathematics the in-place loops are proved against. */
module Transform {
  import opened Words
  import opened Zq
  import opened Polynomials
  import opened ZetaTables

  /** Node `m` of the tree holds `n` coefficients. */
  predicate IsNode(m: nat, n: nat) {
    (n == 256 && m == 1) || (n == 128 && 2 <= m < 4) || (n == 64 && 4 <= m < 8) ||
    (n == 32 && 8 <= m < 16) || (n == 16 && 16 <= m < 32) || (n == 8 && 32 <= m < 64) ||
    (n == 4 && 64 <= m < 128) || (n == 2 && 128 <= m < 256)
  }

  lemma NodeChildren(m: nat, n: nat)
    requires IsNode(m, n) && n != 2
    ensures 4 <= n <= 256 && n % 4 == 0 && 1 <= m < 128
    ensures IsNode(2 * m, n / 2) && IsNode(2 * m + 1, n / 2)
  {
  }

  /** The zeta of node `m`, and its negative: the roots of the two children. */
  function Zeta0(m: nat): Zq
    requires 1 <= m < 128
  {
    Zeta(m)
  }

  function Zeta1(m: nat): Zq
    requires 1 <= m < 128
  {
    Q - Zeta(m)
  }

  lemma ChildRoots(m: nat)
    requires 1 <= m < 128
    ensures Zeta0(m) == Root(2 * m) && Zeta1(m) == Root(2 * m + 1)
    ensures Times(Zeta0(m), Zeta0(m)) == Root(m) && Times(Zeta1(m), Zeta1(m)) == Root(m)
  {
    hide Zeta;
    ZetaSquares(m);
    NegatedSquare(Zeta(m));
  }

  lemma NegatedSquare(z: Zq)
    requires z != 0
    ensures Times(Q - z, Q - z) == Times(z, z)
  {
    ResidueShift((Q - z) * (Q - z), z * z, Q - 2 * z);
  }

  /** Algorithm 9 of FIPS 203, depth first. */
  function Ntt(m: nat, a: Poly): (r: Poly)
    requires IsNode(m, |a|)
    ensures |r| == |a|
    decreases |a|
  {
    if |a| == 2 then a
    else Ntt(2 * m, Fold(a, Zeta0(m))) + Ntt(2 * m + 1, Fold(a, Zeta1(m)))
  }

  /** The leaf reached from node `m` by always taking the first child: m * n / 2. */
  function FirstLeaf(m: nat, n: nat): (leaf: nat)
    requires IsNode(m, n)
    ensures 128 <= leaf && leaf + n / 2 <= 256
  {
    if n == 2 then m else if n == 4 then 2 * m else if n == 8 then 4 * m else if n == 16 then 8 * m
    else if n == 32 then 16 * m else if n == 64 then 32 * m else if n == 128 then 64 * m else 128
  }

  lemma FirstLeafOfChildren(m: nat, n: nat)
    requires IsNode(m, n) && n > 2
    ensures FirstLeaf(m, n) == FirstLeaf(2 * m, n / 2)
    ensures FirstLeaf(m, n) + n / 4 == FirstLeaf(2 * m + 1, n / 2)
  {
  }

  /** The products of matching degree-one residues, from leaf `leaf` on: Algorithms
      11 and 12 of FIPS 203. */
  function PairProducts(leaf: nat, x: Poly, y: Poly): (r: Poly)
    requires 128 <= leaf && |x| == |y| && |x| % 2 == 0 && leaf + |x| / 2 <= 256
    ensures |r| == |x|
    decreases |x|
  {
    if |x| == 0 then []
    else Product(Root(leaf), x[..2], y[..2]) + PairProducts(leaf + 1, x[2..], y[2..])
  }

  lemma {:induction false} PairProductsConcat(leaf: nat, x: Poly, y: Poly, u: Poly, v: Poly)
    requires 128 <= leaf && |x| == |y| && |x| % 2 == 0 && |u| == |v| && |u| % 2 == 0
    requires leaf + |x| / 2 + |u| / 2 <= 256
    ensures PairProducts(leaf, x + u, y + v) == PairProducts(leaf, x, y) + PairProducts(leaf + |x| / 2, u, v)
    decreases |x|
  {
    hide Root, Product, PairProducts;
    if |x| == 0 {
      assert x == [] && y == [] && x + u == u && y + v == v;
      NoPairs(leaf);
    } else {
      var first := Product(Root(leaf), x[..2], y[..2]);
      FirstPair(leaf, x, y, x[..2], y[..2], x[2..], y[2..]);
      assert x + u == x[..2] + (x[2..] + u) && y + v == y[..2] + (y[2..] + v);
      FirstPair(leaf, x + u, y + v, x[..2], y[..2], x[2..] + u, y[2..] + v);
      PairProductsConcat(leaf + 1, x[2..], y[2..], u, v);
    }
  }

  lemma NoPairs(leaf: nat)
    requires 128 <= leaf <= 256
    ensures PairProducts(leaf, [], []) == []
  {
  }

  lemma FirstPair(leaf: nat, x: Poly, y: Poly, x0: Poly, y0: Poly, xs: Poly, ys: Poly)
    requires |x0| == |y0| == 2 && |xs| == |ys| && |xs| % 2 == 0 && x == x0 + xs && y == y0 + ys
    requires 128 <= leaf && leaf + 1 + |xs| / 2 <= 256
    ensures PairProducts(leaf, x, y) == Product(Root(leaf), x0, y0) + PairProducts(leaf + 1, xs, ys)
  {
    assert x[..2] == x0 && y[..2] == y0 && x[2..] == xs && y[2..] == ys;
  }

  lemma LeafProduct(leaf: nat, x: Poly, y: Poly)
    requires 128 <= leaf < 256 && |x| == |y| == 2
    ensures PairProducts(leaf, x, y) == Product(Root(leaf), x, y)
  {
    assert x[..2] == x && y[..2] == y;
    assert PairProducts(leaf + 1, x[2..], y[2..]) == [];
  }

  lemma NttStep(m: nat, a: Poly)
    requires IsNode(m, |a|) && |a| > 2
    ensures Ntt(m, a) == Ntt(2 * m, Fold(a, Zeta0(m))) + Ntt(2 * m + 1, Fold(a, Zeta1(m)))
  {
  }

  lemma NttLeaf(m: nat, a: Poly)
    requires IsNode(m, |a|) && |a| == 2
    ensures Ntt(m, a) == a && FirstLeaf(m, 2) == m && 128 <= m < 256
  {
  }

  /** The transform turns the product of the ring into products of degree-one residues. */
  lemma {:induction false} NttIsHomomorphism(m: nat, a: Poly, b: Poly)
    requires |a| == |b| && IsNode(m, |a|)
    ensures Ntt(m, Product(Root(m), a, b)) == PairProducts(FirstLeaf(m, |a|), Ntt(m, a), Ntt(m, b))
    decreases |a|
  {
    hide *;
    if |a| == 2 {
      NttLeaf(m, a);
      NttLeaf(m, b);
      NttLeaf(m, Product(Root(m), a, b));
      LeafProduct(m, a, b);
    } else {
      NodeChildren(m, |a|);
      ChildRoots(m);
      FirstLeafOfChildren(m, |a|);
      FoldIsHomomorphism(Root(m), a, b, Zeta0(m));
      FoldIsHomomorphism(Root(m), a, b, Zeta1(m));
      var a0, b0 := Fold(a, Zeta0(m)), Fold(b, Zeta0(m));
      var a1, b1 := Fold(a, Zeta1(m)), Fold(b, Zeta1(m));
      NttIsHomomorphism(2 * m, a0, b0);
      NttIsHomomorphism(2 * m + 1, a1, b1);
      NttStep(m, a);
      NttStep(m, b);
      NttStep(m, Product(Root(m), a, b));
      PairProductsConcat(FirstLeaf(m, |a|), Ntt(2 * m, a0), Ntt(2 * m, b0), Ntt(2 * m + 1, a1), Ntt(2 * m + 1, b1));
    }
  }

  // ---- linearity ----

  lemma ScaleConcat(c: Zq, u: Poly, v: Poly)
    ensures Scale(c, u + v) == Scale(c, u) + Scale(c, v)
  {
    hide Residue;
  }

  lemma AddConcat(u: Poly, v: Poly, x: Poly, y: Poly)
    requires |u| == |x| && |v| == |y|
    ensures AddP(u + v, x + y) == AddP(u, x) + AddP(v, y)
    ensures SubP(u + v, x + y) == SubP(u, x) + SubP(v, y)
  {
    hide Residue;
  }

  lemma {:induction false} NttScale(m: nat, c: Zq, a: Poly)
    requires IsNode(m, |a|)
    ensures Ntt(m, Scale(c, a)) == Scale(c, Ntt(m, a))
    decreases |a|
  {
    hide *;
    if |a| == 2 {
      NttLeaf(m, a);
      NttLeaf(m, Scale(c, a));
    } else {
      NodeChildren(m, |a|);
      FoldScale(c, a, Zeta0(m));
      FoldScale(c, a, Zeta1(m));
      NttScale(2 * m, c, Fold(a, Zeta0(m)));
      NttScale(2 * m + 1, c, Fold(a, Zeta1(m)));
      NttStep(m, a);
      NttStep(m, Scale(c, a));
      ScaleConcat(c, Ntt(2 * m, Fold(a, Zeta0(m))), Ntt(2 * m + 1, Fold(a, Zeta1(m))));
    }
  }

  lemma {:induction false} NttAdd(m: nat, a: Poly, b: Poly)
    requires |a| == |b| && IsNode(m, |a|)
    ensures Ntt(m, AddP(a, b)) == AddP(Ntt(m, a), Ntt(m, b))
    decreases |a|
  {
    hide *;
    if |a| == 2 {
      NttLeaf(m, a);
      NttLeaf(m, b);
      NttLeaf(m, AddP(a, b));
    } else {
      NodeChildren(m, |a|);
      FoldAdd(a, b, Zeta0(m));
      FoldAdd(a, b, Zeta1(m));
      var a0, b0 := Fold(a, Zeta0(m)), Fold(b, Zeta0(m));
      var a1, b1 := Fold(a, Zeta1(m)), Fold(b, Zeta1(m));
      NttAdd(2 * m, a0, b0);
      NttAdd(2 * m + 1, a1, b1);
      NttStep(m, a);
      NttStep(m, b);
      NttStep(m, AddP(a, b));
      AddConcat(Ntt(2 * m, a0), Ntt(2 * m + 1, a1), Ntt(2 * m, b0), Ntt(2 * m + 1, b1));
    }
  }

  // ---- the inverse ----

  /** One inverse butterfly on two half blocks. */
  function Join(low: Poly, high: Poly, z: Zq): (r: Poly)
    requires |low| == |high|
    ensures |r| == 2 * |low|
  {
    AddP(low, high) + Scale(z, SubP(high, low))
  }

  /** Algorithm 10 of FIPS 203 without its final scaling, depth first. The inverse
      walks the zetas backwards, so its index `k` mirrors the forward node. */
  function InverseNtt(k: nat, x: Poly): (r: Poly)
    requires IsNode(k, |x|)
    ensures |r| == |x|
    decreases |x|
  {
    if |x| == 2 then x
    else Join(InverseNtt(2 * k + 1, x[..|x| / 2]), InverseNtt(2 * k, x[|x| / 2..]), Zeta(k))
  }

  /** `k` is the inverse transform's index for the block that node `m` split. */
  predicate Mirrors(m: nat, k: nat, n: nat) {
    IsNode(m, n) && IsNode(k, n) && m + k == 3 * (256 / n) - 1
  }

  lemma MirrorChildren(m: nat, k: nat, n: nat)
    requires Mirrors(m, k, n) && n != 2
    ensures Zeta0(m) == Zeta(m) && Zeta1(m) == Q - Zeta(m)
    ensures 4 <= n <= 256 && n % 4 == 0 && 1 <= m < 128 && k < 128
    ensures IsNode(m, n) && IsNode(k, n)
    ensures IsNode(2 * m, n / 2) && IsNode(2 * m + 1, n / 2)
    ensures IsNode(2 * k, n / 2) && IsNode(2 * k + 1, n / 2)
    ensures Mirrors(2 * m, 2 * k + 1, n / 2) && Mirrors(2 * m + 1, 2 * k, n / 2)
    ensures Times(Zeta(m), Zeta(k)) == Q - 1
  {
    hide Zeta;
    hide Residue;
    ZetaInverses(256 / n, m);
  }

  lemma NegatedTimes(z: Zq, t: Zq)
    requires z != 0
    ensures Times(Q - z, t) == Minus(0, Times(z, t))
  {
    hide Residue;
    assert (Q - z) * t == Q * t - z * t;
    ResidueMinus(Q * t, z * t);
    ResidueShift(Q * t, 0, t);
    ResidueOfZq(0);
    ResidueOfZq(Times(z, t));
  }

  lemma DoubleSum(b: Zq, s: Zq)
    ensures Plus(Plus(b, s), Plus(b, Minus(0, s))) == Times(2, b)
    ensures Minus(Plus(b, Minus(0, s)), Plus(b, s)) == Minus(0, Times(2, s))
  {
    hide Residue;
    ResidueOfZq(b);
    ResiduePlus(b, 0 - s);
    ResiduePlus(b + s, b - s);
    ResidueMinus(b - s, b + s);
    ResidueMinus(0, 2 * s);
    ResidueOfZq(0);
  }

  /** The scalar heart of one inverse butterfly undoing one forward butterfly. */
  lemma ButterflyUndone(b: Zq, t: Zq, z: Zq, y: Zq)
    requires z != 0 && Times(z, y) == Q - 1
    ensures var u, v := Plus(b, Times(z, t)), Plus(b, Times(Q - z, t));
      Plus(u, v) == Times(2, b) && Times(y, Minus(v, u)) == Times(2, t)
  {
    hide Residue;
    var s := Times(z, t);
    NegatedTimes(z, t);
    DoubleSum(b, s);
    assert Times(y, s) == Minus(0, t) by {
      TimesAssociates(y, z, t);
      TimesCommutes(y, z);
      NegatedTimes(1, t);
      PlusLaws(t, 0, 0);
    }
    TimesDistributes(y, 0, Times(2, s));
    TimesSwap(y, 2, s);
    PlusLaws(y, 0, 0);
    DoubleNegation(t);
  }

  lemma DoubleNegation(t: Zq)
    ensures Minus(0, Times(2, Minus(0, t))) == Times(2, t)
    ensures Minus(0, Minus(0, t)) == t
  {
    hide Residue;
    ResidueOfZq(0);
    ResidueOfZq(2);
    ResidueOfZq(t);
    ResidueTimes(2, 0 - t);
    ResidueMinus(0, 2 * (0 - t));
    ResidueMinus(0, 0 - t);
  }

  /** ... and the other way round. */
  lemma JoinSplit(lo: Zq, hi: Zq, z: Zq, y: Zq)
    requires z != 0 && Times(z, y) == Q - 1
    ensures var u, v := Plus(lo, hi), Times(y, Minus(hi, lo));
      Plus(u, Times(z, v)) == Times(2, lo) && Plus(u, Times(Q - z, v)) == Times(2, hi)
  {
    hide Residue;
    var d := Minus(hi, lo);
    NegatedTimes(z, Times(y, d));
    assert Times(z, Times(y, d)) == Minus(0, d) by {
      TimesAssociates(z, y, d);
      NegatedTimes(1, d);
      PlusLaws(d, 0, 0);
    }
    DoubleNegation(d);
    SumAndDifference(lo, hi);
  }

  lemma SumAndDifference(lo: Zq, hi: Zq)
    ensures Plus(Plus(lo, hi), Minus(0, Minus(hi, lo))) == Times(2, lo)
    ensures Plus(Plus(lo, hi), Minus(hi, lo)) == Times(2, hi)
  {
    hide Residue;
    ResidueOfZq(0);
    ResidueMinus(0, hi - lo);
    ResiduePlus(lo + hi, lo - hi);
    ResiduePlus(lo + hi, hi - lo);
  }

  lemma FoldThenJoin(a: Poly, z: Zq, y: Zq)
    requires |a| % 2 == 0 && z != 0 && Times(z, y) == Q - 1
    ensures Join(Fold(a, z), Fold(a, Q - z), y) == Scale(2, a)
  {
    hide Residue;
    var n := |a| / 2;
    var j := Join(Fold(a, z), Fold(a, Q - z), y);
    forall i | 0 <= i < n
      ensures j[i] == Times(2, a[i])
    {
      ButterflyUndone(a[i], a[n + i], z, y);
    }
    forall i | n <= i < 2 * n
      ensures j[i] == Times(2, a[i])
    {
      ButterflyUndone(a[i - n], a[n + (i - n)], z, y);
    }
  }

  lemma JoinThenFold(low: Poly, high: Poly, z: Zq, y: Zq)
    requires |low| == |high| && z != 0 && Times(z, y) == Q - 1
    ensures Fold(Join(low, high, y), z) == Scale(2, low)
    ensures Fold(Join(low, high, y), Q - z) == Scale(2, high)
  {
    hide Fold, Join, Plus, Minus, Times;
    var j := Join(low, high, y);
    forall i | 0 <= i < |low|
      ensures Fold(j, z)[i] == Times(2, low[i]) && Fold(j, Q - z)[i] == Times(2, high[i])
    {
      JoinAt(low, high, y, i);
      FoldAt(j, z, i);
      FoldAt(j, Q - z, i);
      JoinSplit(low[i], high[i], z, y);
    }
  }

  lemma JoinAt(low: Poly, high: Poly, y: Zq, i: nat)
    requires |low| == |high| && i < |low|
    ensures Join(low, high, y)[i] == Plus(low[i], high[i])
    ensures Join(low, high, y)[|low| + i] == Times(y, Minus(high[i], low[i]))
  {
    hide Plus, Minus, Times;
  }

  lemma FoldAt(a: Poly, z: Zq, i: nat)
    requires |a| % 2 == 0 && 2 * i < |a|
    ensures Fold(a, z)[i] == Plus(a[i], Times(z, a[|a| / 2 + i]))
  {
    hide Plus, Times;
  }

  lemma JoinScale(c: Zq, low: Poly, high: Poly, z: Zq)
    requires |low| == |high|
    ensures Join(Scale(c, low), Scale(c, high), z) == Scale(c, Join(low, high, z))
  {
    hide Residue;
    ScaleAdd(c, low, high);
    ScaleSub(c, high, low);
    var d := SubP(high, low);
    ScaleScale(c, z, d);
    ScaleScale(z, c, d);
    TimesCommutes(c, z);
    assert Scale(c, Join(low, high, z)) == Scale(c, AddP(low, high)) + Scale(c, Scale(z, d));
  }

  lemma HalfDoubles(n: nat)
    requires 4 <= n <= 256 && n % 4 == 0
    ensures Times(n / 4, 2) == n / 2 && Times(2, n / 4) == n / 2
  {
  }

  lemma InverseNttStep(k: nat, u: Poly, v: Poly)
    requires |u| == |v| && |u| > 1 && IsNode(k, 2 * |u|)
    ensures k < 128 && 0 < Zeta(k) < 3329
    ensures InverseNtt(k, u + v) == Join(InverseNtt(2 * k + 1, u), InverseNtt(2 * k, v), Zeta(k))
  {
    assert (u + v)[..|u|] == u && (u + v)[|u|..] == v;
  }

  lemma LeafInverse(m: nat, k: nat, a: Poly)
    requires Mirrors(m, k, |a|) && |a| == 2
    ensures InverseNtt(k, Ntt(m, a)) == Scale(1, a) && Ntt(m, InverseNtt(k, a)) == Scale(1, a)
  {
    ScaleOne(a);
  }

  /** Every inverse stage undoes its forward stage up to a factor 2. */
  lemma {:induction false} InverseOfNtt(m: nat, k: nat, a: Poly)
    requires Mirrors(m, k, |a|)
    ensures InverseNtt(k, Ntt(m, a)) == Scale(|a| / 2, a)
    decreases |a|
  {
    hide *;
    if |a| == 2 {
      LeafInverse(m, k, a);
    } else {
      var n := |a|;
      MirrorChildren(m, k, n);
      var z := Zeta(m);
      var a0, a1 := Fold(a, z), Fold(a, Q - z);
      InverseOfNtt(2 * m, 2 * k + 1, a0);
      InverseOfNtt(2 * m + 1, 2 * k, a1);
      NttStep(m, a);
      InverseNttStep(k, Ntt(2 * m, a0), Ntt(2 * m + 1, a1));
      JoinScale(n / 4, a0, a1, Zeta(k));
      FoldThenJoin(a, z, Zeta(k));
      ScaleScale(n / 4, 2, a);
      HalfDoubles(n);
    }
  }

  lemma {:induction false} NttOfInverse(m: nat, k: nat, x: Poly)
    requires Mirrors(m, k, |x|)
    ensures Ntt(m, InverseNtt(k, x)) == Scale(|x| / 2, x)
    decreases |x|
  {
    hide *;
    if |x| == 2 {
      LeafInverse(m, k, x);
    } else {
      var n := |x|;
      MirrorChildren(m, k, n);
      var u, v := x[..n / 2], x[n / 2..];
      var low, high := InverseNtt(2 * k + 1, u), InverseNtt(2 * k, v);
      NttOfInverse(2 * m, 2 * k + 1, u);
      NttOfInverse(2 * m + 1, 2 * k, v);
      assert x == u + v;
      InverseNttStep(k, u, v);
      NttStep(m, InverseNtt(k, x));
      JoinThenFold(low, high, Zeta(m), Zeta(k));
      NttScale(2 * m, 2, low);
      NttScale(2 * m + 1, 2, high);
      ScaleScale(2, n / 4, u);
      ScaleScale(2, n / 4, v);
      HalfDoubles(n);
      ScaleConcat(n / 2, u, v);
    }
  }

  lemma InverseNttLeaf(k: nat, x: Poly)
    requires IsNode(k, |x|) && |x| == 2
    ensures InverseNtt(k, x) == x
  {
  }

  lemma {:induction false} InverseNttScale(k: nat, c: Zq, x: Poly)
    requires IsNode(k, |x|)
    ensures InverseNtt(k, Scale(c, x)) == Scale(c, InverseNtt(k, x))
    decreases |x|
  {
    hide *;
    if |x| == 2 {
      InverseNttLeaf(k, x);
      InverseNttLeaf(k, Scale(c, x));
    } else {
      NodeChildren(k, |x|);
      var u, v := x[..|x| / 2], x[|x| / 2..];
      assert x == u + v;
      InverseNttScale(2 * k + 1, c, u);
      InverseNttScale(2 * k, c, v);
      ScaleConcat(c, u, v);
      InverseNttStep(k, u, v);
      InverseNttStep(k, Scale(c, u), Scale(c, v));
      JoinScale(c, InverseNtt(2 * k + 1, u), InverseNtt(2 * k, v), Zeta(k));
    }
  }

  lemma JoinSub(a: Poly, b: Poly, c: Poly, d: Poly, z: Zq)
    requires |a| == |b| == |c| == |d|
    ensures Join(SubP(a, c), SubP(b, d), z) == SubP(Join(a, b, z), Join(c, d, z))
  {
    hide Residue;
    forall i | 0 <= i < |a|
      ensures Plus(Minus(a[i], c[i]), Minus(b[i], d[i])) == Minus(Plus(a[i], b[i]), Plus(c[i], d[i]))
      ensures Times(z, Minus(Minus(b[i], d[i]), Minus(a[i], c[i])))
           == Minus(Times(z, Minus(b[i], a[i])), Times(z, Minus(d[i], c[i])))
    {
      MinusExchange(a[i], b[i], c[i], d[i]);
      TimesDistributes(z, Minus(b[i], a[i]), Minus(d[i], c[i]));
    }
  }

  lemma MinusExchange(a: Zq, b: Zq, c: Zq, d: Zq)
    ensures Plus(Minus(a, c), Minus(b, d)) == Minus(Plus(a, b), Plus(c, d))
    ensures Minus(Minus(b, d), Minus(a, c)) == Minus(Minus(b, a), Minus(d, c))
  {
    hide Residue;
    ResiduePlus(a - c, b - d);
    ResidueMinus(a + b, c + d);
    ResidueMinus(b - d, a - c);
    ResidueMinus(b - a, d - c);
  }

  lemma {:induction false} InverseNttSub(k: nat, x: Poly, y: Poly)
    requires |x| == |y| && IsNode(k, |x|)
    ensures InverseNtt(k, SubP(x, y)) == SubP(InverseNtt(k, x), InverseNtt(k, y))
    decreases |x|
  {
    hide *;
    if |x| == 2 {
      InverseNttLeaf(k, x);
      InverseNttLeaf(k, y);
      InverseNttLeaf(k, SubP(x, y));
    } else {
      NodeChildren(k, |x|);
      var n := |x| / 2;
      var a, b, c, d := x[..n], x[n..], y[..n], y[n..];
      assert x == a + b && y == c + d;
      AddConcat(a, b, c, d);
      InverseNttSub(2 * k + 1, a, c);
      InverseNttSub(2 * k, b, d);
      InverseNttStep(k, a, b);
      InverseNttStep(k, c, d);
      InverseNttStep(k, SubP(a, c), SubP(b, d));
      JoinSub(InverseNtt(2 * k + 1, a), InverseNtt(2 * k, b), InverseNtt(2 * k + 1, c), InverseNtt(2 * k, d), Zeta(k));
    }
  }

  // ---- the two main results over Z/q ----

  /** 128^-1 mod q. */
  const INVERSE_128: Zq := 3303

  /** Forward transform, degree-one products, inverse transform, and a division by
      128 give the negacyclic product. */
  lemma ProductViaNtt(f: Poly, g: Poly)
    requires |f| == |g| == 256
    ensures Scale(INVERSE_128, InverseNtt(1, PairProducts(128, Ntt(1, f), Ntt(1, g)))) == Product(Q - 1, f, g)
  {
    var h := Product(Q - 1, f, g);
    NttIsHomomorphism(1, f, g);
    hide *;
    assert Scale(INVERSE_128, InverseNtt(1, Ntt(1, h))) == h by {
      InverseOfNtt(1, 1, h);
      ScaleScale(INVERSE_128, 128, h);
      ScaleOne(h);
      InverseOf128();
    }
  }

  lemma InverseOf128()
    ensures Times(INVERSE_128, 128) == 1
    ensures Mirrors(1, 1, 256)
    ensures Root(1) == Q - 1 && FirstLeaf(1, 256) == 128
  {
  }

  /** The remainder of a polynomial of c * n coefficients modulo X^n - w: coefficient
      j is f_j + w f_(n+j) + w^2 f_(2n+j) + ... */
  function Remainder(f: Poly, n: nat, c: nat, w: Zq): (r: Poly)
    requires c > 0 && |f| == c * n
    ensures |r| == n
    decreases c
  {
    if c == 1 then f else
    assert |f| - n == (c - 1) * n;
    AddP(f[..n], Scale(w, Remainder(f[n..], n, c - 1, w)))
  }

  lemma RemainderStep(f: Poly, n: nat, c: nat, w: Zq)
    requires c > 1 && |f| == c * n
    ensures n <= |f| && |f| - n == (c - 1) * n
    ensures Remainder(f, n, c, w) == AddP(f[..n], Scale(w, Remainder(f[n..], n, c - 1, w)))
  {
    assert |f| - n == (c - 1) * n;
  }

  lemma RemainderOne(f: Poly, n: nat, w: Zq)
    requires |f| == n
    ensures Remainder(f, n, 1, w) == f
  {
  }

  lemma ChunkCounts(n: nat, c: nat)
    ensures c * (2 * n) == (2 * c) * n && (c - 1) * (2 * n) == c * (2 * n) - 2 * n
    ensures (2 * c - 1) * n == (2 * c) * n - n && (2 * c - 2) * n == (2 * c) * n - 2 * n
    ensures c > 0 ==> 2 * n <= c * (2 * n)
  {
    Doubled(c, n);
    Distributes(c, 1, 2 * n);
    Distributes(2 * c, 1, n);
    Distributes(2 * c, 2, n);
    if c > 0 {
      ProductMonotone(1, c, 2 * n);
    }
  }

  /** Reducing modulo X^2n - z^2 first changes nothing. */
  lemma {:induction false} RemainderFolds(f: Poly, n: nat, c: nat, z: Zq)
    requires c > 0 && |f| == c * (2 * n)
    ensures (2 * c) * n == |f|
    ensures Remainder(f, n, 2 * c, z) == Fold(Remainder(f, 2 * n, c, Times(z, z)), z)
    decreases c
  {
    hide *;
    ChunkCounts(n, c);
    var low, mid, rest := f[..n], f[n..2 * n], f[2 * n..];
    assert f[n..][..n] == mid && f[n..][n..] == rest;
    assert f[..2 * n][..n] == low && f[..2 * n][n..] == mid;
    RemainderStep(f, n, 2 * c, z);
    FoldSplits(f[..2 * n], z);
    if c == 1 {
      assert mid == f[n..] && f == f[..2 * n];
      RemainderOne(mid, n, z);
      RemainderOne(f, 2 * n, Times(z, z));
    } else {
      RemainderStep(f[n..], n, 2 * c - 1, z);
      RemainderStep(f, 2 * n, c, Times(z, z));
      RemainderFolds(rest, n, c - 1, z);
      var tail := Remainder(rest, 2 * n, c - 1, Times(z, z));
      FoldAdd(f[..2 * n], Scale(Times(z, z), tail), z);
      FoldScale(Times(z, z), tail, z);
      ScaleAdd(z, mid, Scale(z, Fold(tail, z)));
      ScaleScale(z, z, Fold(tail, z));
      AddAssociates(low, Scale(z, mid), Scale(Times(z, z), Fold(tail, z)));
    }
  }

  lemma NodeHalves(m: nat, n: nat, c: nat, j: nat)
    requires IsNode(m, n) && c * n == 256 && n != 2 && 2 * j < n
    ensures n % 4 == 0 && 4 <= n && m < 128 && c > 0 && (2 * c) * (n / 2) == 256
    ensures IsNode(2 * m, n / 2) && IsNode(2 * m + 1, n / 2)
    ensures 2 * j >= n / 2 ==> j - n / 4 >= 0 && 2 * (j - n / 4) < n / 2
    ensures FirstLeaf(m, n) == FirstLeaf(2 * m, n / 2) && FirstLeaf(m, n) + n / 4 == FirstLeaf(2 * m + 1, n / 2)
    ensures FirstLeaf(m, n) + j < 256
  {
    FirstLeafOfChildren(m, n);
  }

  lemma PairOfConcat(x: Poly, y: Poly, j: nat)
    requires 2 * j + 2 <= |x| + |y| && |x| % 2 == 0
    ensures 2 * j < |x| ==> (x + y)[2 * j..2 * j + 2] == x[2 * j..2 * j + 2]
    ensures 2 * j >= |x| ==> (x + y)[2 * j..2 * j + 2] == y[2 * j - |x|..2 * j - |x| + 2]
  {
  }

  lemma LeafRemainder(m: nat, c: nat, f: Poly)
    requires IsNode(m, 2) && c * 2 == |f| == 256
    ensures Ntt(m, Remainder(f, 2, c, Root(m))) == Remainder(f, 2, 128, Root(FirstLeaf(m, 2)))
  {
  }

  /** The transform, from node `m` on, of the remainder at that node. */
  function NodeRemainder(m: nat, n: nat, c: nat, f: Poly): (r: Poly)
    requires IsNode(m, n) && c * n == |f| && c > 0
    ensures |r| == n
  {
    Ntt(m, Remainder(f, n, c, Root(m)))
  }

  /** One step of the transform on a remainder gives the two finer remainders. */
  lemma StepOfRemainder(m: nat, n: nat, c: nat, f: Poly)
    requires IsNode(m, n) && c * n == |f| == 256 && c > 0 && n != 2
    ensures IsNode(2 * m, n / 2) && IsNode(2 * m + 1, n / 2) && (2 * c) * (n / 2) == 256
    ensures NodeRemainder(m, n, c, f) == NodeRemainder(2 * m, n / 2, 2 * c, f) + NodeRemainder(2 * m + 1, n / 2, 2 * c, f)
  {
    hide *;
    NodeHalves(m, n, c, 0);
    ChildRoots(m);
    RemainderFolds(f, n / 2, c, Zeta0(m));
    RemainderFolds(f, n / 2, c, Zeta1(m));
    NttStep(m, Remainder(f, n, c, Root(m)));
    NodeRemainderIs(m, n, c, f);
    NodeRemainderIs(2 * m, n / 2, 2 * c, f);
    NodeRemainderIs(2 * m + 1, n / 2, 2 * c, f);
  }

  lemma NodeRemainderIs(m: nat, n: nat, c: nat, f: Poly)
    requires IsNode(m, n) && c * n == |f| && c > 0
    ensures NodeRemainder(m, n, c, f) == Ntt(m, Remainder(f, n, c, Root(m)))
  {
  }

  /** What the transform means: the pair at leaf i is the remainder of the input
      modulo X^2 - gamma_i (equation 4.12 of FIPS 203). */
  lemma {:induction false} PairIsRemainder(m: nat, n: nat, c: nat, f: Poly, j: nat)
    requires IsNode(m, n) && c * n == |f| == 256 && c > 0 && 2 * j < n
    ensures 2 * j + 2 <= n && FirstLeaf(m, n) + j < 256
    ensures NodeRemainder(m, n, c, f)[2 * j..2 * j + 2] == Remainder(f, 2, 128, Root(FirstLeaf(m, n) + j))
    decreases n
  {
    hide Remainder, Root, FirstLeaf, NodeRemainder;
    if n == 2 {
      LeafRemainder(m, c, f);
      NodeRemainderIs(m, n, c, f);
      assert j == 0;
    } else {
      NodeHalves(m, n, c, j);
      StepOfRemainder(m, n, c, f);
      PairOfConcat(NodeRemainder(2 * m, n / 2, 2 * c, f), NodeRemainder(2 * m + 1, n / 2, 2 * c, f), j);
      hide IsNode;
      if 2 * j < n / 2 {
        PairIsRemainder(2 * m, n / 2, 2 * c, f, j);
      } else {
        PairIsRemainder(2 * m + 1, n / 2, 2 * c, f, j - n / 4);
      }
    }
  }

  /** Pair `j` of the transform is the remainder modulo X^2 - gamma_j, for all 128 pairs. */
  lemma NttIsRemainders(f: Poly, j: nat)
    requires |f| == 256 && j < 128
    ensures Ntt(1, f)[2 * j..2 * j + 2] == Remainder(f, 2, 128, Root(128 + j))
  {
    hide Remainder, Root, Ntt;
    PairIsRemainder(1, 256, 1, f, j);
    NodeRemainderIs(1, 256, 1, f);
    RemainderOne(f, 256, Root(1));
  }
}
