/** The whole multiplication pipeline on 16-bit words: forward transforms, base
    multiplication on split storage, inverse transform. */
module RingProduct {
  import opened Words
  import opened Zq
  import opened Polynomials
  import opened Field
  import opened ZetaTables
  import opened Transform
  import opened NttSpec
  import opened NttCorrect
  import opened BaseMul

  /** `RqElement::ntt`: transform, then split storage. */
  function NttElement(f: seq<i16>): (h: TqWords)
    requires |f| == 256
  {
    Split(NttWords(f))
  }

  /** `TqElement::ntt_inverse`: natural order, then inverse transform. */
  function InverseElement(h: TqWords): (f: seq<i16>)
    ensures |f| == 256
  {
    InverseNttWords(Interleave(h))
  }

  lemma NttElementCorrect(f: seq<i16>)
    requires |f| == 256 && Bounded(f, NTT_ENTRY_BOUND)
    ensures StoredResidues(NttElement(f)) == Ntt(1, Residues(f)) && Bounded(NttElement(f), 1664)
  {
    hide Residues;
    hide NttWords;
    hide Ntt;
    NttWordsCorrect(f);
    BoundedPermutes(NttWords(f), 1664);
  }

  lemma BoundedPermutes(c: seq<i16>, bound: int)
    requires |c| == 256 && Bounded(c, bound)
    ensures Bounded(Split(c), bound) && Bounded(Interleave(c), bound)
  {
  }

  lemma InverseElementCorrect(h: TqWords)
    requires Bounded(h, 16383)
    ensures Residues(InverseElement(h)) == Scale(INVERSE_FACTOR, InverseNtt(1, StoredResidues(h)))
    ensures Bounded(InverseElement(h), 2250)
  {
    hide Residues;
    hide InverseNttWords;
    hide InverseNtt;
    hide Interleave;
    hide Scale;
    BoundedPermutes(h, 16383);
    InverseNttWordsCorrect(Interleave(h));
  }

  lemma FactorIdentities()
    ensures Times(INVERSE_FACTOR, R_INVERSE) == INVERSE_128
    ensures Times(INVERSE_FACTOR, 128) == R
    ensures IsNode(1, 256) && Mirrors(1, 1, 256)
  {
  }

  lemma MultiplyWordsBounded(f: TqWords, g: TqWords)
    requires Bounded(f, 1664) && Bounded(g, 1664)
    ensures Bounded(MultiplyWords(f, g), 3500)
  {
    hide Mul;
    hide GammaMont;
    forall i | 0 <= i < 128
      ensures Abs(EvenWord(f, g, i)) <= 3500 && Abs(OddWord(f, g, i)) <= 3500
    {
      assert Abs(f[i]) <= 1664 && Abs(f[128 + i]) <= 1664 && Abs(g[i]) <= 1664 && Abs(g[128 + i]) <= 1664;
      ProductBound(f[i], g[i], 1664, 1664);
      ProductBound(f[i], g[128 + i], 1664, 1664);
      ProductBound(f[128 + i], g[i], 1664, 1664);
      ProductBound(f[128 + i], g[128 + i], 1664, 1664);
      var p := Mul(f[128 + i], g[128 + i]);
      assert Abs(p) <= 1706;
      assert Abs(GammaMont(i)) <= 3328;
      ProductBound(p, GammaMont(i), 1706, 3328);
    }
  }

  /** Transforming, multiplying and transforming back is the product modulo X^256 + 1
      and q: the R^-1 of base multiplication cancels against the final scale. */
  lemma NegacyclicProduct(f: seq<i16>, g: seq<i16>)
    requires |f| == |g| == 256 && Bounded(f, Q - 1) && Bounded(g, Q - 1)
    ensures Residues(InverseElement(MultiplyWords(NttElement(f), NttElement(g)))) == Product(Q - 1, Residues(f), Residues(g))
  {
    hide Residues;
    hide NttElement;
    hide InverseElement;
    hide MultiplyWords;
    hide Product;
    hide Ntt;
    hide InverseNtt;
    hide PairProducts;
    hide StoredResidues;
    hide Scale;
    hide Bounded;
    hide Mirrors;
    BoundedWeakens(f, Q - 1, NTT_ENTRY_BOUND);
    BoundedWeakens(g, Q - 1, NTT_ENTRY_BOUND);
    NttElementCorrect(f);
    NttElementCorrect(g);
    var x, y := NttElement(f), NttElement(g);
    MultiplyWordsBounded(x, y);
    BoundedWeakens(x, 1664, MULTIPLY_ENTRY_BOUND);
    BoundedWeakens(y, 1664, MULTIPLY_ENTRY_BOUND);
    StoredMultiply(x, y);
    var h := MultiplyWords(x, y);
    BoundedWeakens(h, 3500, 16383);
    InverseElementCorrect(h);
    FactorIdentities();
    var p := MultiplyNtts(Ntt(1, Residues(f)), Ntt(1, Residues(g)));
    InverseNttScale(1, R_INVERSE, p);
    ScaleScale(INVERSE_FACTOR, R_INVERSE, InverseNtt(1, p));
    ProductViaNtt(Residues(f), Residues(g));
  }

  lemma StoredMultiply(x: TqWords, y: TqWords)
    requires Bounded(x, MULTIPLY_ENTRY_BOUND) && Bounded(y, MULTIPLY_ENTRY_BOUND)
    ensures StoredResidues(MultiplyWords(x, y)) == Scale(R_INVERSE, MultiplyNtts(StoredResidues(x), StoredResidues(y)))
  {
    hide Residues;
    hide Interleave;
    hide MultiplyWords;
    hide MultiplyNtts;
    hide Scale;
    MultiplyWordsCorrect(x, y);
  }

  /** The round trip scales by R, not by 1. */
  lemma InverseOfNttElement(f: seq<i16>)
    requires |f| == 256 && Bounded(f, NTT_ENTRY_BOUND)
    ensures Residues(InverseElement(NttElement(f))) == Scale(R, Residues(f))
  {
    hide *;
    NttElementCorrect(f);
    BoundedWeakens(NttElement(f), 1664, 16383);
    InverseElementCorrect(NttElement(f));
    FactorIdentities();
    InverseOfNtt(1, 1, Residues(f));
    ScaleScale(INVERSE_FACTOR, 128, Residues(f));
  }
}
