/** The algebra of transformed polynomials: base multiplication is a commutative,
    associative, distributive product, dot products of transforms are transforms of
    inner products, and a matrix moves across a dot product as its transpose. */
module TqAlgebra {
  import opened Zq
  import opened Polynomials
  import opened Transform
  import opened ZetaTables
  import opened BaseMul

  // ---- one slot ----

  function SlotEven(a0: Zq, a1: Zq, b0: Zq, b1: Zq, w: Zq): Zq {
    Plus(Times(a0, b0), Times(w, Times(a1, b1)))
  }

  function SlotOdd(a0: Zq, a1: Zq, b0: Zq, b1: Zq): Zq {
    Plus(Times(a0, b1), Times(a1, b0))
  }

  lemma SlotOfResidues(a: int, b: int, c: int, d: int, w: Zq)
    ensures SlotEven(Residue(a), Residue(b), Residue(c), Residue(d), w) == Residue(a * c + w * (b * d))
    ensures SlotOdd(Residue(a), Residue(b), Residue(c), Residue(d)) == Residue(a * d + b * c)
  {
    hide Residue, Plus, Times;
    ResidueTimes(a, c);
    ResidueTimes(b, d);
    ResidueTimes(w, b * d);
    ResidueOfZq(w);
    ResiduePlus(a * c, w * (b * d));
    ResidueTimes(a, d);
    ResidueTimes(b, c);
    ResiduePlus(a * d, b * c);
  }

  lemma SlotAssociates(a0: Zq, a1: Zq, b0: Zq, b1: Zq, c0: Zq, c1: Zq, w: Zq)
    ensures SlotEven(SlotEven(a0, a1, b0, b1, w), SlotOdd(a0, a1, b0, b1), c0, c1, w)
         == SlotEven(a0, a1, SlotEven(b0, b1, c0, c1, w), SlotOdd(b0, b1, c0, c1), w)
    ensures SlotOdd(SlotEven(a0, a1, b0, b1, w), SlotOdd(a0, a1, b0, b1), c0, c1)
         == SlotOdd(a0, a1, SlotEven(b0, b1, c0, c1, w), SlotOdd(b0, b1, c0, c1))
  {
    hide Residue, SlotEven, SlotOdd;
    ResidueOfZq(a0);
    ResidueOfZq(a1);
    ResidueOfZq(b0);
    ResidueOfZq(b1);
    ResidueOfZq(c0);
    ResidueOfZq(c1);
    SlotOfResidues(a0, a1, b0, b1, w);
    SlotOfResidues(b0, b1, c0, c1, w);
    SlotOfResidues(a0 * b0 + w * (a1 * b1), a0 * b1 + a1 * b0, c0, c1, w);
    SlotOfResidues(a0, a1, b0 * c0 + w * (b1 * c1), b0 * c1 + b1 * c0, w);
    QuadraticAssociates(a0, a1, b0, b1, c0, c1, w);
  }

  /** (a0 + a1 X)(b0 + b1 X)(c0 + c1 X) modulo X^2 - w, over the integers. */
  lemma QuadraticAssociates(a0: int, a1: int, b0: int, b1: int, c0: int, c1: int, w: int)
    ensures (a0 * b0 + w * (a1 * b1)) * c0 + w * ((a0 * b1 + a1 * b0) * c1)
         == a0 * (b0 * c0 + w * (b1 * c1)) + w * (a1 * (b0 * c1 + b1 * c0))
    ensures (a0 * b0 + w * (a1 * b1)) * c1 + (a0 * b1 + a1 * b0) * c0
         == a0 * (b0 * c1 + b1 * c0) + a1 * (b0 * c0 + w * (b1 * c1))
  {
    Associate(a0, b0, c0);
    Associate(a0, b0, c1);
    Associate(a0, b1, c0);
    Associate(a0, b1, c1);
    Associate(a1, b0, c0);
    Associate(a1, b0, c1);
    Associate(a1, b1, c0);
    Associate(a1, b1, c1);
    Pull(w, a1 * b1, c0);
    Pull(w, a1 * b1, c1);
    assert (a0 * b0 + w * (a1 * b1)) * c0 == a0 * b0 * c0 + w * (a1 * b1 * c0);
    assert (a0 * b0 + w * (a1 * b1)) * c1 == a0 * b0 * c1 + w * (a1 * b1 * c1);
    assert (a0 * b1 + a1 * b0) * c1 == a0 * b1 * c1 + a1 * b0 * c1;
    assert (a0 * b1 + a1 * b0) * c0 == a0 * b1 * c0 + a1 * b0 * c0;
    Spread(a0, b0 * c0, w, b1 * c1);
    Spread(a1, b0 * c0, w, b1 * c1);
    assert a1 * (b0 * c1 + b1 * c0) == a1 * (b0 * c1) + a1 * (b1 * c0);
    assert a0 * (b0 * c1 + b1 * c0) == a0 * (b0 * c1) + a0 * (b1 * c0);
    assert w * (a0 * b1 * c1 + a1 * b0 * c1) == w * (a0 * b1 * c1) + w * (a1 * b0 * c1);
    assert w * (a1 * (b0 * c1) + a1 * (b1 * c0)) == w * (a1 * (b0 * c1)) + w * (a1 * (b1 * c0));
  }

  lemma Associate(x: int, y: int, z: int)
    ensures x * y * z == x * (y * z)
  {
  }

  lemma Pull(w: int, x: int, c: int)
    ensures (w * x) * c == w * (x * c)
  {
  }

  lemma Spread(a: int, x: int, w: int, y: int)
    ensures a * (x + w * y) == a * x + w * (a * y)
  {
    assert a * (x + w * y) == a * x + a * (w * y);
    assert a * (w * y) == w * (a * y);
  }

  // ---- products of transforms ----

  lemma ProductSlot(x: RingPoly, y: RingPoly, i: nat)
    requires i < 128
    ensures MultiplyNtts(x, y)[2 * i] == SlotEven(x[2 * i], x[2 * i + 1], y[2 * i], y[2 * i + 1], Root(128 + i))
    ensures MultiplyNtts(x, y)[2 * i + 1] == SlotOdd(x[2 * i], x[2 * i + 1], y[2 * i], y[2 * i + 1])
  {
    hide PairProducts, Root, Plus, Times;
    PairProductsAt(128, x, y, i);
  }

  lemma MultiplyCommutes(x: RingPoly, y: RingPoly)
    ensures MultiplyNtts(x, y) == MultiplyNtts(y, x)
  {
    hide MultiplyNtts, Root, Plus, Times;
    forall i | 0 <= i < 128
      ensures MultiplyNtts(x, y)[2 * i] == MultiplyNtts(y, x)[2 * i] && MultiplyNtts(x, y)[2 * i + 1] == MultiplyNtts(y, x)[2 * i + 1]
    {
      ProductSlot(x, y, i);
      ProductSlot(y, x, i);
      TimesCommutes(x[2 * i], y[2 * i]);
      TimesCommutes(x[2 * i + 1], y[2 * i + 1]);
      TimesCommutes(x[2 * i], y[2 * i + 1]);
      TimesCommutes(x[2 * i + 1], y[2 * i]);
      PlusLaws(Times(x[2 * i], y[2 * i + 1]), Times(x[2 * i + 1], y[2 * i]), 0);
    }
    PairsDetermine(MultiplyNtts(x, y), MultiplyNtts(y, x), 128);
  }

  lemma MultiplyAssociates(x: RingPoly, y: RingPoly, z: RingPoly)
    ensures MultiplyNtts(MultiplyNtts(x, y), z) == MultiplyNtts(x, MultiplyNtts(y, z))
  {
    hide MultiplyNtts, Root, SlotEven, SlotOdd;
    var l, r := MultiplyNtts(MultiplyNtts(x, y), z), MultiplyNtts(x, MultiplyNtts(y, z));
    forall i | 0 <= i < 128 ensures l[2 * i] == r[2 * i] && l[2 * i + 1] == r[2 * i + 1] {
      ProductSlot(x, y, i);
      ProductSlot(y, z, i);
      ProductSlot(MultiplyNtts(x, y), z, i);
      ProductSlot(x, MultiplyNtts(y, z), i);
      SlotAssociates(x[2 * i], x[2 * i + 1], y[2 * i], y[2 * i + 1], z[2 * i], z[2 * i + 1], Root(128 + i));
    }
    PairsDetermine(l, r, 128);
  }

  lemma SlotDistributes(a0: Zq, a1: Zq, b0: Zq, b1: Zq, c0: Zq, c1: Zq, w: Zq)
    ensures SlotEven(Plus(a0, b0), Plus(a1, b1), c0, c1, w) == Plus(SlotEven(a0, a1, c0, c1, w), SlotEven(b0, b1, c0, c1, w))
    ensures SlotOdd(Plus(a0, b0), Plus(a1, b1), c0, c1) == Plus(SlotOdd(a0, a1, c0, c1), SlotOdd(b0, b1, c0, c1))
  {
    hide Plus, Times;
    TimesDistributesRight(a0, b0, c0);
    TimesDistributesRight(a1, b1, c1);
    TimesDistributes(w, Times(a1, c1), Times(b1, c1));
    PlusExchange(Times(a0, c0), Times(b0, c0), Times(w, Times(a1, c1)), Times(w, Times(b1, c1)));
    TimesDistributesRight(a0, b0, c1);
    TimesDistributesRight(a1, b1, c0);
    PlusExchange(Times(a0, c1), Times(b0, c1), Times(a1, c0), Times(b1, c0));
  }

  lemma MultiplyDistributes(x: RingPoly, y: RingPoly, z: RingPoly)
    ensures MultiplyNtts(AddP(x, y), z) == AddP(MultiplyNtts(x, z), MultiplyNtts(y, z))
  {
    hide MultiplyNtts, Root, SlotEven, SlotOdd, Plus;
    var l, r := MultiplyNtts(AddP(x, y), z), AddP(MultiplyNtts(x, z), MultiplyNtts(y, z));
    forall i | 0 <= i < 128 ensures l[2 * i] == r[2 * i] && l[2 * i + 1] == r[2 * i + 1] {
      ProductSlot(x, z, i);
      ProductSlot(y, z, i);
      ProductSlot(AddP(x, y), z, i);
      SlotDistributes(x[2 * i], x[2 * i + 1], y[2 * i], y[2 * i + 1], z[2 * i], z[2 * i + 1], Root(128 + i));
    }
    PairsDetermine(l, r, 128);
  }

  lemma MultiplyZero(z: RingPoly)
    ensures MultiplyNtts(Zero(256), z) == Zero(256)
  {
    hide MultiplyNtts, Root, Plus, Times;
    forall i | 0 <= i < 128
      ensures MultiplyNtts(Zero(256), z)[2 * i] == Zero(256)[2 * i] && MultiplyNtts(Zero(256), z)[2 * i + 1] == Zero(256)[2 * i + 1]
    {
      ProductSlot(Zero(256), z, i);
      PlusLaws(z[2 * i], 0, 0);
      PlusLaws(z[2 * i + 1], 0, 0);
      PlusLaws(Root(128 + i), 0, 0);
      PlusLaws(0, 0, 0);
    }
    PairsDetermine(MultiplyNtts(Zero(256), z), Zero(256), 128);
  }

  // ---- dot products ----

  lemma DotStepLast(xs: seq<RingPoly>, ys: seq<RingPoly>, n: nat)
    requires |xs| == |ys| == n + 1
    ensures Dot(xs, ys) == AddP(Dot(xs[..n], ys[..n]), MultiplyNtts(xs[n], ys[n]))
  {
  }

  function AddV(xs: seq<RingPoly>, ys: seq<RingPoly>): (r: seq<RingPoly>)
    requires |xs| == |ys|
    ensures |r| == |xs|
  {
    seq(|xs|, i requires 0 <= i < |xs| => AddP(xs[i], ys[i]))
  }

  /** Every entry multiplied by one transform. */
  function MulEach(xs: seq<RingPoly>, z: RingPoly): (r: seq<RingPoly>)
    ensures |r| == |xs|
  {
    seq(|xs|, i requires 0 <= i < |xs| => MultiplyNtts(xs[i], z))
  }

  lemma {:induction false} DotCommutes(xs: seq<RingPoly>, ys: seq<RingPoly>)
    requires |xs| == |ys|
    ensures Dot(xs, ys) == Dot(ys, xs)
    decreases |xs|
  {
    if |xs| > 0 {
      var n := |xs| - 1;
      DotCommutes(xs[..n], ys[..n]);
      hide MultiplyNtts, AddP;
      MultiplyCommutes(xs[n], ys[n]);
    }
  }

  lemma {:induction false} DotAdds(xs: seq<RingPoly>, ys: seq<RingPoly>, zs: seq<RingPoly>)
    requires |xs| == |ys| == |zs|
    ensures Dot(AddV(xs, ys), zs) == AddP(Dot(xs, zs), Dot(ys, zs))
    decreases |xs|
  {
    if |xs| == 0 {
      ZeroIsNeutral(Zero(256), 0);
    } else {
      var n := |xs| - 1;
      DotAdds(xs[..n], ys[..n], zs[..n]);
      DotStepLast(xs, zs, n);
      DotStepLast(ys, zs, n);
      DotStepLast(AddV(xs, ys), zs, n);
      hide MultiplyNtts, AddP, Dot;
      assert AddV(xs, ys)[..n] == AddV(xs[..n], ys[..n]);
      MultiplyDistributes(xs[n], ys[n], zs[n]);
      AddExchange(Dot(xs[..n], zs[..n]), Dot(ys[..n], zs[..n]), MultiplyNtts(xs[n], zs[n]), MultiplyNtts(ys[n], zs[n]));
    }
  }

  lemma {:induction false} DotOfMulEach(xs: seq<RingPoly>, z: RingPoly, ys: seq<RingPoly>)
    requires |xs| == |ys|
    ensures Dot(MulEach(xs, z), ys) == MultiplyNtts(Dot(xs, ys), z)
    decreases |xs|
  {
    if |xs| == 0 {
      MultiplyZero(z);
    } else {
      var n := |xs| - 1;
      DotOfMulEach(xs[..n], z, ys[..n]);
      DotStepLast(xs, ys, n);
      DotStepLast(MulEach(xs, z), ys, n);
      hide MultiplyNtts, AddP, Dot;
      assert MulEach(xs, z)[..n] == MulEach(xs[..n], z);
      MultiplyAssociates(xs[n], z, ys[n]);
      MultiplyCommutes(z, ys[n]);
      MultiplyAssociates(xs[n], ys[n], z);
      MultiplyDistributes(Dot(xs[..n], ys[..n]), MultiplyNtts(xs[n], ys[n]), z);
    }
  }

  // ---- matrices ----

  predicate IsMatrix(a: seq<seq<RingPoly>>, rows: nat, columns: nat) {
    |a| == rows && forall i | 0 <= i < rows :: |a[i]| == columns
  }

  function MatVec(a: seq<seq<RingPoly>>, x: seq<RingPoly>): (r: seq<RingPoly>)
    requires IsMatrix(a, |a|, |x|)
    ensures |r| == |a|
  {
    seq(|a|, i requires 0 <= i < |a| => Dot(a[i], x))
  }

  function Column(a: seq<seq<RingPoly>>, columns: nat, j: nat): (r: seq<RingPoly>)
    requires IsMatrix(a, |a|, columns) && j < columns
    ensures |r| == |a|
  {
    seq(|a|, i requires 0 <= i < |a| => a[i][j])
  }

  function Transpose(a: seq<seq<RingPoly>>, columns: nat): (t: seq<seq<RingPoly>>)
    requires IsMatrix(a, |a|, columns)
    ensures IsMatrix(t, columns, |a|)
  {
    seq(columns, j requires 0 <= j < columns => Column(a, columns, j))
  }

  lemma {:induction false} DotOfZeros(xs: seq<RingPoly>, ys: seq<RingPoly>)
    requires |xs| == |ys| && forall j | 0 <= j < |xs| :: xs[j] == Zero(256)
    ensures Dot(xs, ys) == Zero(256)
    decreases |xs|
  {
    if |xs| > 0 {
      var n := |xs| - 1;
      DotOfZeros(xs[..n], ys[..n]);
      DotStepLast(xs, ys, n);
      hide MultiplyNtts, AddP, Dot;
      MultiplyZero(ys[n]);
      ZeroIsNeutral(Zero(256), 0);
    }
  }

  lemma TransposeSplits(a: seq<seq<RingPoly>>, y: seq<RingPoly>, columns: nat, n: nat)
    requires IsMatrix(a, n + 1, columns) && |y| == n + 1
    ensures MatVec(Transpose(a, columns), y) == AddV(MatVec(Transpose(a[..n], columns), y[..n]), MulEach(a[n], y[n]))
  {
    hide MultiplyNtts, AddP, Dot;
    var l := MatVec(Transpose(a, columns), y);
    var r := AddV(MatVec(Transpose(a[..n], columns), y[..n]), MulEach(a[n], y[n]));
    forall j | 0 <= j < columns ensures l[j] == r[j] {
      DotStepLast(Column(a, columns, j), y, n);
      assert Column(a, columns, j)[..n] == Column(a[..n], columns, j);
    }
  }

  /** (A s) . y == (A^T y) . s for every matrix and vectors of transforms. */
  lemma {:induction false} MatrixMovesAcross(a: seq<seq<RingPoly>>, s: seq<RingPoly>, y: seq<RingPoly>)
    requires IsMatrix(a, |a|, |s|) && |y| == |a|
    ensures Dot(MatVec(a, s), y) == Dot(MatVec(Transpose(a, |s|), y), s)
    decreases |a|
  {
    if |a| == 0 {
      assert forall j | 0 <= j < |s| :: MatVec(Transpose(a, |s|), y)[j] == Zero(256);
      DotOfZeros(MatVec(Transpose(a, |s|), y), s);
    } else {
      var n := |a| - 1;
      MatrixMovesAcross(a[..n], s, y[..n]);
      hide MultiplyNtts, AddP, Dot;
      DotStepLast(MatVec(a, s), y, n);
      assert MatVec(a, s)[..n] == MatVec(a[..n], s);
      TransposeSplits(a, y, |s|, n);
      DotAdds(MatVec(Transpose(a[..n], |s|), y[..n]), MulEach(a[n], y[n]), s);
      DotOfMulEach(a[n], y[n], s);
    }
  }

  // ---- transforms of vectors ----

  function Transformed(f: RingPoly): RingPoly {
    InverseOf128();
    Ntt(1, f)
  }

  /** NTT^-1, with its 1/128. */
  function Untransformed(x: RingPoly): RingPoly {
    InverseOf128();
    Scale(INVERSE_128, InverseNtt(1, x))
  }

  lemma UntransformedOfTransformed(f: RingPoly)
    ensures Untransformed(Transformed(f)) == f
  {
    hide Ntt, InverseNtt, Scale, Times;
    InverseOf128();
    InverseOfNtt(1, 1, f);
    ScaleScale(INVERSE_128, 128, f);
    ScaleOne(f);
  }

  lemma TransformedOfUntransformed(x: RingPoly)
    ensures Transformed(Untransformed(x)) == x
  {
    hide Ntt, InverseNtt, Scale, Times;
    InverseOf128();
    NttScale(1, INVERSE_128, InverseNtt(1, x));
    NttOfInverse(1, 1, x);
    ScaleScale(INVERSE_128, 128, x);
    ScaleOne(x);
  }

  lemma UntransformedSub(x: RingPoly, y: RingPoly)
    ensures Untransformed(SubP(x, y)) == SubP(Untransformed(x), Untransformed(y))
  {
    hide Ntt, InverseNtt, Scale, SubP;
    InverseOf128();
    InverseNttSub(1, x, y);
    ScaleSub(INVERSE_128, InverseNtt(1, x), InverseNtt(1, y));
  }

  lemma TransformedAdd(f: RingPoly, g: RingPoly)
    ensures Transformed(AddP(f, g)) == AddP(Transformed(f), Transformed(g))
  {
    hide Ntt, AddP;
    InverseOf128();
    NttAdd(1, f, g);
  }

  function TransformedV(v: seq<RingPoly>): (r: seq<RingPoly>)
    ensures |r| == |v|
  {
    seq(|v|, i requires 0 <= i < |v| => Transformed(v[i]))
  }

  /** x^T y in the ring of polynomials modulo X^256 + 1. */
  function InnerProduct(xs: seq<RingPoly>, ys: seq<RingPoly>): (r: RingPoly)
    requires |xs| == |ys|
  {
    if |xs| == 0 then Zero(256)
    else var n := |xs| - 1; AddP(InnerProduct(xs[..n], ys[..n]), Product(Q - 1, xs[n], ys[n]))
  }

  /** One component: the product modulo X^256 + 1. */
  lemma InnerProductOfOne(x: RingPoly, y: RingPoly)
    ensures InnerProduct([x], [y]) == Product(Q - 1, x, y)
  {
    hide Product;
    assert [x][..0] == [] && [y][..0] == [];
    ZeroIsNeutral(Product(Q - 1, x, y), 0);
  }

  /** The product of joined vectors is the sum of the products. */
  lemma {:induction false} InnerProductSplits(xs: seq<RingPoly>, ys: seq<RingPoly>, us: seq<RingPoly>, vs: seq<RingPoly>)
    requires |xs| == |ys| && |us| == |vs|
    ensures InnerProduct(xs + us, ys + vs) == AddP(InnerProduct(xs, ys), InnerProduct(us, vs))
    decreases |us|
  {
    hide Product;
    if |us| == 0 {
      assert xs + us == xs && ys + vs == ys;
      ZeroIsNeutral(InnerProduct(xs, ys), 0);
    } else {
      var n, k := |us| - 1, |xs + us| - 1;
      assert (xs + us)[..k] == xs + us[..n] && (ys + vs)[..k] == ys + vs[..n];
      assert (xs + us)[k] == us[n] && (ys + vs)[k] == vs[n];
      InnerProductSplits(xs, ys, us[..n], vs[..n]);
      hide AddP;
      AddAssociates(InnerProduct(xs, ys), InnerProduct(us[..n], vs[..n]), Product(Q - 1, us[n], vs[n]));
    }
  }

  lemma TransformedProduct(f: RingPoly, g: RingPoly)
    ensures Transformed(Product(Q - 1, f, g)) == MultiplyNtts(Transformed(f), Transformed(g))
  {
    hide Ntt, Product, PairProducts;
    InverseOf128();
    NttIsHomomorphism(1, f, g);
  }

  lemma TransformedZero()
    ensures Transformed(Zero(256)) == Zero(256)
  {
    hide Ntt, Scale;
    InverseOf128();
    var z: RingPoly := Zero(256);
    ZeroScales(z);
    ZeroScales(Transformed(z));
    NttScale(1, 0, z);
  }

  lemma ZeroScales(a: RingPoly)
    ensures Scale(0, a) == Zero(256)
  {
    hide Times;
    forall i | 0 <= i < 256 ensures Scale(0, a)[i] == 0 {
      PlusLaws(a[i], 0, 0);
    }
  }

  /** The dot product of transforms is the transform of the inner product. */
  lemma {:induction false} DotOfTransforms(xs: seq<RingPoly>, ys: seq<RingPoly>)
    requires |xs| == |ys|
    ensures Dot(TransformedV(xs), TransformedV(ys)) == Transformed(InnerProduct(xs, ys))
    decreases |xs|
  {
    if |xs| == 0 {
      TransformedZero();
    } else {
      var n := |xs| - 1;
      DotOfTransforms(xs[..n], ys[..n]);
      DotStepLast(TransformedV(xs), TransformedV(ys), n);
      hide MultiplyNtts, AddP, Dot, Transformed, Product;
      assert TransformedV(xs)[..n] == TransformedV(xs[..n]) && TransformedV(ys)[..n] == TransformedV(ys[..n]);
      TransformedProduct(xs[n], ys[n]);
      TransformedAdd(InnerProduct(xs[..n], ys[..n]), Product(Q - 1, xs[n], ys[n]));
    }
  }
}
