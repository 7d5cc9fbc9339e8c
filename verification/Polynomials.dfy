/** Polynomials over Z/q as coefficient sequences, and the quotient rings
    Zq[X]/(X^n - w) that the number-theoretic transform splits between. */
module Polynomials {
  import opened Zq

  type Poly = seq<Zq>

  function Zero(n: nat): Poly {
    seq(n, i => 0)
  }

  function AddP(a: Poly, b: Poly): (r: Poly)
    requires |a| == |b|
    ensures |r| == |a|
  {
    seq(|a|, i requires 0 <= i < |a| => Plus(a[i], b[i]))
  }

  function SubP(a: Poly, b: Poly): (r: Poly)
    requires |a| == |b|
    ensures |r| == |a|
  {
    seq(|a|, i requires 0 <= i < |a| => Minus(a[i], b[i]))
  }

  function Scale(c: Zq, a: Poly): (r: Poly)
    ensures |r| == |a|
  {
    seq(|a|, i requires 0 <= i < |a| => Times(c, a[i]))
  }

  /** A polynomial of the program's ring: 256 coefficients. */
  type RingPoly = p: Poly | |p| == 256 witness Zero(256)

  /** X * b in Zq[X]/(X^n - w), n = |b|. */
  function TimesX(w: Zq, b: Poly): (r: Poly)
    requires |b| > 0
    ensures |r| == |b|
  {
    [Times(w, b[|b| - 1])] + b[..|b| - 1]
  }

  /** a * b in Zq[X]/(X^n - w), n = |b|, by Horner's rule in `a`. The left factor
      may have any degree. */
  function Product(w: Zq, a: Poly, b: Poly): (r: Poly)
    requires |b| > 0
    ensures |r| == |b|
  {
    if |a| == 0 then Zero(|b|) else AddP(Scale(a[0], b), TimesX(w, Product(w, a[1..], b)))
  }

  /** The remainder of `b` modulo X^n - z, |b| = 2n. */
  function Fold(b: Poly, z: Zq): (r: Poly)
    requires |b| % 2 == 0
    ensures |r| == |b| / 2
  {
    seq(|b| / 2, i requires 0 <= i < |b| / 2 => Plus(b[i], Times(z, b[|b| / 2 + i])))
  }

  // ---- scalar identities ----

  lemma PlusLaws(a: Zq, b: Zq, c: Zq)
    ensures Plus(a, b) == Plus(b, a)
    ensures Plus(Plus(a, b), c) == Plus(a, Plus(b, c))
    ensures Plus(a, 0) == a && Plus(0, a) == a && Times(a, 0) == 0 && Times(0, a) == 0 && Times(1, a) == a
  {
  }

  lemma PlusExchange(a: Zq, b: Zq, c: Zq, d: Zq)
    ensures Plus(Plus(a, b), Plus(c, d)) == Plus(Plus(a, c), Plus(b, d))
  {
    hide Residue;
    PlusLaws(a, b, Plus(c, d));
    PlusLaws(b, c, d);
    PlusLaws(c, b, d);
    PlusLaws(a, c, Plus(b, d));
  }

  lemma TimesDistributesRight(a: Zq, b: Zq, c: Zq)
    ensures Times(Plus(a, b), c) == Plus(Times(a, c), Times(b, c))
    ensures Times(Minus(a, b), c) == Minus(Times(a, c), Times(b, c))
  {
    hide Residue;
    TimesCommutes(Plus(a, b), c);
    TimesCommutes(Minus(a, b), c);
    TimesDistributes(c, a, b);
    TimesCommutes(a, c);
    TimesCommutes(b, c);
  }

  lemma TimesSwap(a: Zq, b: Zq, c: Zq)
    ensures Times(a, Times(b, c)) == Times(b, Times(a, c))
  {
    hide Residue;
    TimesAssociates(a, b, c);
    TimesAssociates(b, a, c);
    TimesCommutes(a, b);
  }

  // ---- Fold is linear and multiplicative ----

  lemma FoldAdd(a: Poly, b: Poly, z: Zq)
    requires |a| == |b| && |a| % 2 == 0
    ensures Fold(AddP(a, b), z) == AddP(Fold(a, z), Fold(b, z))
  {
    hide Residue;
    var n := |a| / 2;
    forall i | 0 <= i < n
      ensures Plus(Plus(a[i], b[i]), Times(z, Plus(a[n + i], b[n + i])))
           == Plus(Plus(a[i], Times(z, a[n + i])), Plus(b[i], Times(z, b[n + i])))
    {
      TimesDistributes(z, a[n + i], b[n + i]);
      PlusExchange(a[i], b[i], Times(z, a[n + i]), Times(z, b[n + i]));
    }
    assert Fold(AddP(a, b), z) == AddP(Fold(a, z), Fold(b, z));
  }

  lemma FoldScale(c: Zq, a: Poly, z: Zq)
    requires |a| % 2 == 0
    ensures Fold(Scale(c, a), z) == Scale(c, Fold(a, z))
  {
    hide Residue;
    var n := |a| / 2;
    forall i | 0 <= i < n
      ensures Plus(Times(c, a[i]), Times(z, Times(c, a[n + i]))) == Times(c, Plus(a[i], Times(z, a[n + i])))
    {
      TimesSwap(z, c, a[n + i]);
      TimesDistributes(c, a[i], Times(z, a[n + i]));
    }
    assert Fold(Scale(c, a), z) == Scale(c, Fold(a, z));
  }

  lemma FoldTimesX(w: Zq, b: Poly, z: Zq)
    requires |b| > 0 && |b| % 2 == 0 && w == Times(z, z)
    ensures Fold(TimesX(w, b), z) == TimesX(z, Fold(b, z))
  {
    hide Residue;
    var n := |b| / 2;
    var last, mid := b[2 * n - 1], b[n - 1];
    assert Plus(Times(w, last), Times(z, mid)) == Times(z, Plus(mid, Times(z, last))) by {
      TimesAssociates(z, z, last);
      TimesDistributes(z, mid, Times(z, last));
      PlusLaws(Times(z, mid), Times(w, last), 0);
    }
    assert Fold(TimesX(w, b), z) == TimesX(z, Fold(b, z));
  }

  lemma FoldZero(n: nat, z: Zq)
    ensures Fold(Zero(2 * n), z) == Zero(n)
  {
    PlusLaws(z, 0, 0);
  }

  lemma {:induction false} FoldProduct(w: Zq, a: Poly, b: Poly, z: Zq)
    requires |b| > 0 && |b| % 2 == 0 && w == Times(z, z)
    ensures Fold(Product(w, a, b), z) == Product(z, a, Fold(b, z))
  {
    hide Residue;
    hide Fold;
    hide AddP;
    hide Scale;
    hide TimesX;
    if |a| == 0 {
      FoldZero(|b| / 2, z);
    } else {
      var rest := Product(w, a[1..], b);
      FoldProduct(w, a[1..], b, z);
      FoldTimesX(w, rest, z);
      FoldScale(a[0], b, z);
      FoldAdd(Scale(a[0], b), TimesX(w, rest), z);
    }
  }

  // ---- Product is linear in its left factor ----

  lemma TimesXAdd(w: Zq, a: Poly, b: Poly)
    requires |a| == |b| > 0
    ensures TimesX(w, AddP(a, b)) == AddP(TimesX(w, a), TimesX(w, b))
  {
    hide Residue;
    TimesDistributes(w, a[|a| - 1], b[|a| - 1]);
  }

  lemma TimesXScale(w: Zq, c: Zq, a: Poly)
    requires |a| > 0
    ensures TimesX(w, Scale(c, a)) == Scale(c, TimesX(w, a))
  {
    hide Residue;
    TimesSwap(w, c, a[|a| - 1]);
  }

  lemma AddExchange(a: Poly, b: Poly, c: Poly, d: Poly)
    requires |a| == |b| == |c| == |d|
    ensures AddP(AddP(a, b), AddP(c, d)) == AddP(AddP(a, c), AddP(b, d))
  {
    hide Residue;
    forall i | 0 <= i < |a|
      ensures Plus(Plus(a[i], b[i]), Plus(c[i], d[i])) == Plus(Plus(a[i], c[i]), Plus(b[i], d[i]))
    {
      PlusExchange(a[i], b[i], c[i], d[i]);
    }
    assert AddP(AddP(a, b), AddP(c, d)) == AddP(AddP(a, c), AddP(b, d));
  }

  lemma ScaleAdd(c: Zq, a: Poly, b: Poly)
    requires |a| == |b|
    ensures Scale(c, AddP(a, b)) == AddP(Scale(c, a), Scale(c, b))
  {
    hide Residue;
    forall i | 0 <= i < |a|
      ensures Times(c, Plus(a[i], b[i])) == Plus(Times(c, a[i]), Times(c, b[i]))
    {
      TimesDistributes(c, a[i], b[i]);
    }
    assert Scale(c, AddP(a, b)) == AddP(Scale(c, a), Scale(c, b));
  }

  lemma ScaleSub(c: Zq, a: Poly, b: Poly)
    requires |a| == |b|
    ensures Scale(c, SubP(a, b)) == SubP(Scale(c, a), Scale(c, b))
  {
    hide Residue;
    forall i | 0 <= i < |a|
      ensures Times(c, Minus(a[i], b[i])) == Minus(Times(c, a[i]), Times(c, b[i]))
    {
      TimesDistributes(c, a[i], b[i]);
    }
    assert Scale(c, SubP(a, b)) == SubP(Scale(c, a), Scale(c, b));
  }

  lemma ScaleScale(c: Zq, d: Zq, a: Poly)
    ensures Scale(c, Scale(d, a)) == Scale(Times(c, d), a)
  {
    hide Residue;
    forall i | 0 <= i < |a|
      ensures Times(c, Times(d, a[i])) == Times(Times(c, d), a[i])
    {
      TimesAssociates(c, d, a[i]);
    }
    assert Scale(c, Scale(d, a)) == Scale(Times(c, d), a);
  }

  lemma ScaleOne(a: Poly)
    ensures Scale(1, a) == a
  {
    forall i | 0 <= i < |a|
      ensures Times(1, a[i]) == a[i]
    {
      PlusLaws(a[i], 0, 0);
    }
  }

  lemma ZeroIsNeutral(a: Poly, c: Zq)
    ensures AddP(Zero(|a|), a) == a && AddP(a, Zero(|a|)) == a
    ensures Scale(c, Zero(|a|)) == Zero(|a|)
  {
    hide Residue;
    forall i | 0 <= i < |a|
      ensures Plus(0, a[i]) == a[i] && Plus(a[i], 0) == a[i]
    {
      PlusLaws(a[i], 0, 0);
    }
    PlusLaws(c, 0, 0);
  }

  lemma {:induction false} ProductAdd(w: Zq, a: Poly, c: Poly, b: Poly)
    requires |b| > 0 && |a| == |c|
    ensures Product(w, AddP(a, c), b) == AddP(Product(w, a, b), Product(w, c, b))
  {
    if |a| == 0 {
      ZeroIsNeutral(Zero(|b|), 0);
    } else {
      assert AddP(a, c)[1..] == AddP(a[1..], c[1..]);
      assert AddP(a, c)[0] == Plus(a[0], c[0]);
      ScaleOfSum(a[0], c[0], b);
      ProductAdd(w, a[1..], c[1..], b);
      hide Residue;
      hide Scale;
      hide AddP;
      hide TimesX;
      var p, r := Product(w, a[1..], b), Product(w, c[1..], b);
      TimesXAdd(w, p, r);
      AddExchange(Scale(a[0], b), TimesX(w, p), Scale(c[0], b), TimesX(w, r));
    }
  }

  lemma ScaleOfSum(c: Zq, d: Zq, a: Poly)
    ensures Scale(Plus(c, d), a) == AddP(Scale(c, a), Scale(d, a))
  {
    hide Residue;
    forall i | 0 <= i < |a|
      ensures Times(Plus(c, d), a[i]) == Plus(Times(c, a[i]), Times(d, a[i]))
    {
      TimesDistributesRight(c, d, a[i]);
    }
    assert Scale(Plus(c, d), a) == AddP(Scale(c, a), Scale(d, a));
  }

  lemma {:induction false} ProductScale(w: Zq, c: Zq, a: Poly, b: Poly)
    requires |b| > 0
    ensures Product(w, Scale(c, a), b) == Scale(c, Product(w, a, b))
  {
    if |a| == 0 {
      ZeroIsNeutral(Zero(|b|), c);
    } else {
      assert Scale(c, a)[1..] == Scale(c, a[1..]);
      assert Scale(c, a)[0] == Times(c, a[0]);
      ProductScale(w, c, a[1..], b);
      ScaleScale(c, a[0], b);
      hide Residue;
      hide Scale;
      hide AddP;
      hide TimesX;
      var p := Product(w, a[1..], b);
      TimesXScale(w, c, p);
      ScaleAdd(c, Scale(a[0], b), TimesX(w, p));
    }
  }

  // ---- X^n acts as w ----

  /** X^k * b for k <= n. */
  function Shift(w: Zq, b: Poly, k: nat): (r: Poly)
    requires k <= |b|
    ensures |r| == |b|
  {
    Scale(w, b[|b| - k..]) + b[..|b| - k]
  }

  lemma ShiftStep(w: Zq, b: Poly, k: nat)
    requires k < |b|
    ensures TimesX(w, Shift(w, b, k)) == Shift(w, b, k + 1)
  {
    hide Residue;
    var n := |b|;
    assert b[n - (k + 1)..] == [b[n - k - 1]] + b[n - k..];
    assert Shift(w, b, k)[n - 1] == b[n - 1 - k];
  }

  lemma ShiftAll(w: Zq, b: Poly)
    ensures Shift(w, b, 0) == b && Shift(w, b, |b|) == Scale(w, b)
  {
  }

  /** A left factor of length k + |c| is the short part plus X^k times the rest. */
  lemma {:induction false} ProductConcat(w: Zq, a: Poly, c: Poly, b: Poly)
    requires |b| > 0 && |a| <= |b|
    ensures Product(w, a + c, b) == AddP(Product(w, a, b), Shift(w, Product(w, c, b), |a|))
  {
    var tail := Product(w, c, b);
    if |a| == 0 {
      assert a + c == c;
      ShiftAll(w, tail);
      ZeroIsNeutral(tail, 0);
    } else {
      assert (a + c)[1..] == a[1..] + c;
      ProductConcat(w, a[1..], c, b);
      var p := Product(w, a[1..], b);
      ShiftStep(w, tail, |a| - 1);
      TimesXAdd(w, p, Shift(w, tail, |a| - 1));
      AddAssociates(Scale(a[0], b), TimesX(w, p), Shift(w, tail, |a|));
    }
  }

  lemma AddAssociates(a: Poly, b: Poly, c: Poly)
    requires |a| == |b| == |c|
    ensures AddP(AddP(a, b), c) == AddP(a, AddP(b, c))
  {
    hide Residue;
    forall i | 0 <= i < |a|
      ensures Plus(Plus(a[i], b[i]), c[i]) == Plus(a[i], Plus(b[i], c[i]))
    {
      PlusLaws(a[i], b[i], c[i]);
    }
    assert AddP(AddP(a, b), c) == AddP(a, AddP(b, c));
  }

  lemma FoldSplits(a: Poly, z: Zq)
    requires |a| % 2 == 0
    ensures Fold(a, z) == AddP(a[..|a| / 2], Scale(z, a[|a| / 2..]))
  {
    hide Residue;
  }

  /** A left factor may be reduced modulo X^n - z before multiplying. */
  lemma ProductFoldLeft(z: Zq, a: Poly, b: Poly)
    requires |b| > 0 && |a| == 2 * |b|
    ensures Product(z, a, b) == Product(z, Fold(a, z), b)
  {
    hide Fold;
    hide Product;
    hide Scale;
    hide AddP;
    hide Shift;
    var n := |b|;
    var low, high := a[..n], a[n..];
    assert a == low + high;
    FoldSplits(a, z);
    ProductConcat(z, low, high, b);
    ShiftAll(z, Product(z, high, b));
    ProductAdd(z, low, Scale(z, high), b);
    ProductScale(z, z, high, b);
  }

  /** Reduction modulo a factor X^n - z of X^2n - z^2 is a ring homomorphism. */
  lemma FoldIsHomomorphism(w: Zq, a: Poly, b: Poly, z: Zq)
    requires |a| == |b| > 0 && |b| % 2 == 0 && w == Times(z, z)
    ensures Fold(Product(w, a, b), z) == Product(z, Fold(a, z), Fold(b, z))
  {
    hide *;
    FoldProduct(w, a, b, z);
    ProductFoldLeft(z, a, Fold(b, z));
  }

  // ---- the product by the schoolbook formula ----

  /** Coefficient k - i of `b`, read modulo X^n - w: a negative index wraps once. */
  function Wrapped(w: Zq, b: Poly, j: int): Zq
    requires -|b| <= j < |b|
  {
    if j >= 0 then b[j] else Times(w, b[|b| + j])
  }

  /** a_0 * b_k + a_1 * b_(k-1) + ..., with the indices of `b` wrapped. */
  function Convolution(w: Zq, a: Poly, b: Poly, k: int): Zq
    requires |a| - |b| <= k + 1 <= |b|
  {
    if |a| == 0 then 0 else Plus(Times(a[0], Wrapped(w, b, k)), Convolution(w, a[1..], b, k - 1))
  }

  /** Horner's product and the schoolbook sum are the same polynomial. */
  lemma {:induction false} ProductIsConvolution(w: Zq, a: Poly, b: Poly, k: nat)
    requires k < |b| && |a| <= |b|
    ensures Product(w, a, b)[k] == Convolution(w, a, b, k)
  {
    if |a| > 0 {
      var p := Product(w, a[1..], b);
      if k > 0 {
        ProductIsConvolution(w, a[1..], b, k - 1);
      } else {
        ProductIsConvolution(w, a[1..], b, |b| - 1);
        ConvolutionWraps(w, a[1..], b);
      }
    }
  }

  lemma {:induction false} ConvolutionWraps(w: Zq, a: Poly, b: Poly)
    requires |a| < |b|
    ensures Times(w, Convolution(w, a, b, |b| - 1)) == Convolution(w, a, b, -1)
  {
    ConvolutionShifts(w, a, b, |b| - 1);
  }

  lemma {:induction false} ConvolutionShifts(w: Zq, a: Poly, b: Poly, k: int)
    requires |a| - 1 <= k < |b|
    ensures Times(w, Convolution(w, a, b, k)) == Convolution(w, a, b, k - |b|)
  {
    hide Residue;
    if |a| == 0 {
      PlusLaws(w, 0, 0);
    } else {
      ConvolutionShifts(w, a[1..], b, k - 1);
      TimesDistributes(w, Times(a[0], b[k]), Convolution(w, a[1..], b, k - 1));
      TimesSwap(w, a[0], b[k]);
    }
  }
}
