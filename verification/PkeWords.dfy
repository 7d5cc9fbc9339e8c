/** The vector arithmetic of K-PKE on machine words, and its meaning over Z/q: no sum
    wraps, every kernel's entry bound is met, and every Montgomery factor cancels. */
module PkeWords {
  import opened Words
  import opened Zq
  import opened Polynomials
  import F = Field
  import opened NttSpec
  import opened NttCorrect
  import opened BaseMul
  import opened RingProduct
  import opened TqAlgebra
  import opened Transform
  import opened PkeSpec

  function ResiduesV(v: seq<RqWords>): (r: seq<RingPoly>)
    ensures |r| == |v|
  {
    seq(|v|, i requires 0 <= i < |v| => Residues(v[i]))
  }

  function StoredMatrix(a: seq<seq<TqWords>>): (r: seq<seq<RingPoly>>)
    ensures |r| == |a|
  {
    seq(|a|, i requires 0 <= i < |a| => StoredVector(a[i]))
  }

  predicate IsWordMatrix(a: seq<seq<TqWords>>, rows: nat, columns: nat) {
    |a| == rows && forall i | 0 <= i < rows :: |a[i]| == columns
  }

  /** Every entry is a canonical representative. */
  predicate MatrixBounded(a: seq<seq<TqWords>>) {
    forall i | 0 <= i < |a| :: AllBounded(a[i], 3328)
  }

  // ---- coefficient-wise operations ----

  /** `add_assign`. */
  function AddWords(f: RqWords, g: RqWords): RqWords {
    seq(256, i requires 0 <= i < 256 => F.Add(f[i], g[i]))
  }

  /** `sub_assign`. */
  function SubWords(f: RqWords, g: RqWords): RqWords {
    seq(256, i requires 0 <= i < 256 => F.Sub(f[i], g[i]))
  }

  /** `to_montgomery`. */
  function ToMontgomeryAll(h: TqWords): TqWords {
    seq(256, i requires 0 <= i < 256 => F.ToMontgomery(h[i]))
  }

  lemma BoundedAt(f: RqWords, bound: int, i: nat)
    requires Bounded(f, bound) && i < 256
    ensures Abs(f[i]) <= bound
  {
  }

  lemma AddWordsCorrect(f: RqWords, g: RqWords, a: nat, b: nat)
    requires Bounded(f, a) && Bounded(g, b) && a + b < 0x8000
    ensures Residues(AddWords(f, g)) == AddP(Residues(f), Residues(g)) && Bounded(AddWords(f, g), a + b)
    ensures StoredResidues(AddWords(f, g)) == AddP(StoredResidues(f), StoredResidues(g))
  {
    hide Residue, Plus, F.Add;
    forall i | 0 <= i < 256
      ensures F.Add(f[i], g[i]) == f[i] + g[i] && Abs(F.Add(f[i], g[i])) <= a + b
      ensures Residue(F.Add(f[i], g[i])) == Plus(Residue(f[i]), Residue(g[i]))
    {
      BoundedAt(f, a, i);
      BoundedAt(g, b, i);
    }
    BoundedFromEntries(AddWords(f, g), a + b);
  }

  lemma SubWordsCorrect(f: RqWords, g: RqWords, a: nat, b: nat)
    requires Bounded(f, a) && Bounded(g, b) && a + b < 0x8000
    ensures Residues(SubWords(f, g)) == SubP(Residues(f), Residues(g)) && Bounded(SubWords(f, g), a + b)
  {
    hide Residue, Minus, F.Sub;
    forall i | 0 <= i < 256
      ensures F.Sub(f[i], g[i]) == f[i] - g[i] && Abs(F.Sub(f[i], g[i])) <= a + b
      ensures Residue(F.Sub(f[i], g[i])) == Minus(Residue(f[i]), Residue(g[i]))
    {
      BoundedAt(f, a, i);
      BoundedAt(g, b, i);
    }
    BoundedFromEntries(SubWords(f, g), a + b);
  }

  lemma ToMontgomeryAllCorrect(h: TqWords)
    requires Bounded(h, 3694)
    ensures StoredResidues(ToMontgomeryAll(h)) == Scale(F.R, StoredResidues(h)) && Bounded(ToMontgomeryAll(h), 1740)
  {
    hide Residue, Times, F.ToMontgomery;
    forall i | 0 <= i < 256
      ensures Residue(F.ToMontgomery(h[i])) == Times(F.R, Residue(h[i])) && Abs(F.ToMontgomery(h[i])) <= 1740
    {
      BoundedAt(h, 3694, i);
      TimesCommutes(Residue(h[i]), F.R);
      assert 0x1_0000 * Abs(F.ToMontgomery(h[i])) <= 1353 * 3694 + 0x8000 * 3329;
    }
    BoundedFromEntries(ToMontgomeryAll(h), 1740);
  }

  // ---- dot products in both domains ----

  /** An accumulated dot product taken back to the ring: the R^-1 is gone. */
  lemma DotUntransformed(f: seq<TqWords>, g: seq<TqWords>, F: nat, G: nat)
    requires |f| == |g| && F < 0x8000 && G < 0x8000 && DotBounds(|f|, F, G) && AllBounded(f, F) && AllBounded(g, G)
    ensures var h := InverseElement(DotWords(f, g, CachesOf(g)));
            Residues(h) == Untransformed(Dot(StoredVector(f), StoredVector(g))) && Bounded(h, 2250)
  {
    hide InverseElement, DotWords, Residues, Dot, StoredVector, StoredResidues, InverseNtt, Scale, Times, DotBounds, CachesOf, Bounded;
    var h, x := DotWords(f, g, CachesOf(g)), Dot(StoredVector(f), StoredVector(g));
    DotWordsCorrect(f, g, F, G);
    BoundedWeakens(h, 3694, 16383);
    InverseElementCorrect(h);
    InverseOf128();
    FactorIdentities();
    InverseNttScale(1, Field.R_INVERSE, x);
    ScaleScale(INVERSE_FACTOR, Field.R_INVERSE, InverseNtt(1, x));
  }

  /** An accumulated dot product scaled by R stays in the transform domain, true values. */
  lemma DotMontgomery(f: seq<TqWords>, g: seq<TqWords>, F: nat, G: nat)
    requires |f| == |g| && F < 0x8000 && G < 0x8000 && DotBounds(|f|, F, G) && AllBounded(f, F) && AllBounded(g, G)
    ensures var h := ToMontgomeryAll(DotWords(f, g, CachesOf(g)));
            StoredResidues(h) == Dot(StoredVector(f), StoredVector(g)) && Bounded(h, 1740)
  {
    hide DotWords, Dot, StoredVector, StoredResidues, Scale, Times, DotBounds, CachesOf, Bounded, ToMontgomeryAll;
    var h, x := DotWords(f, g, CachesOf(g)), Dot(StoredVector(f), StoredVector(g));
    DotWordsCorrect(f, g, F, G);
    ToMontgomeryAllCorrect(h);
    Field.MontgomeryConstants();
    ScaleScale(Field.R, Field.R_INVERSE, x);
    ScaleOne(x);
  }

  // ---- vectors ----

  function NttVector(v: seq<RqWords>): (r: seq<TqWords>)
    ensures |r| == |v|
  {
    seq(|v|, i requires 0 <= i < |v| => NttElement(v[i]))
  }

  lemma NttVectorCorrect(v: seq<RqWords>, bound: nat)
    requires AllBounded(v, bound) && bound <= NTT_ENTRY_BOUND
    ensures StoredVector(NttVector(v)) == TransformedV(ResiduesV(v)) && AllBounded(NttVector(v), 1664)
  {
    hide NttElement, StoredResidues, Residues, Ntt, Bounded;
    forall i | 0 <= i < |v|
      ensures StoredResidues(NttElement(v[i])) == Transformed(Residues(v[i])) && Bounded(NttElement(v[i]), 1664)
    {
      BoundedWeakens(v[i], bound, NTT_ENTRY_BOUND);
      NttElementCorrect(v[i]);
    }
  }

  /** t_hat: each row's dot product rescaled, plus the transformed error. */
  function PublicWord(row: seq<TqWords>, sHat: seq<TqWords>, e: RqWords): TqWords
    requires |row| == |sHat|
  {
    AddWords(ToMontgomeryAll(DotWords(row, sHat, CachesOf(sHat))), NttElement(e))
  }

  function PublicWords(a: seq<seq<TqWords>>, sHat: seq<TqWords>, e: seq<RqWords>): (t: seq<TqWords>)
    requires IsWordMatrix(a, |e|, |sHat|)
    ensures |t| == |e|
  {
    seq(|e|, i requires 0 <= i < |e| => PublicWord(a[i], sHat, e[i]))
  }

  lemma PublicWordCorrect(row: seq<TqWords>, sHat: seq<TqWords>, e: RqWords)
    requires |row| == |sHat| <= 4 && AllBounded(row, 3328) && AllBounded(sHat, 1664) && Bounded(e, 3)
    ensures StoredResidues(PublicWord(row, sHat, e)) == AddP(Dot(StoredVector(row), StoredVector(sHat)), Transformed(Residues(e)))
    ensures Bounded(PublicWord(row, sHat, e), 3404)
  {
    hide DotWords, Dot, StoredVector, StoredResidues, CachesOf, ToMontgomeryAll, NttElement, AddP, Residues, AddWords, Ntt;
    assert AllBounded(sHat, 4993);
    FourComponents(|row|);
    DotMontgomery(row, sHat, 3328, 4993);
    BoundedWeakens(e, 3, NTT_ENTRY_BOUND);
    NttElementCorrect(e);
    AddWordsCorrect(ToMontgomeryAll(DotWords(row, sHat, CachesOf(sHat))), NttElement(e), 1740, 1664);
  }

  /** Key generation's public vector is A s_hat + e_hat, within the bound the
      encryption dot products need. */
  lemma PublicWordsCorrect(a: seq<seq<TqWords>>, s: seq<RqWords>, e: seq<RqWords>)
    requires |e| <= 4 && |s| <= 4 && IsWordMatrix(a, |e|, |s|) && MatrixBounded(a) && AllBounded(s, 3) && AllBounded(e, 3)
    ensures IsMatrix(StoredMatrix(a), |e|, |s|)
    ensures StoredVector(PublicWords(a, NttVector(s), e)) == PublicVector(StoredMatrix(a), ResiduesV(s), ResiduesV(e))
    ensures AllBounded(PublicWords(a, NttVector(s), e), 3404)
  {
    hide PublicWord, StoredResidues, Residues, Dot, Transformed, AddP, NttVector, Bounded, TransformedV;
    NttVectorCorrect(s, 3);
    var t := PublicWords(a, NttVector(s), e);
    forall i | 0 <= i < |e|
      ensures StoredResidues(t[i]) == AddP(Dot(StoredVector(a[i]), StoredVector(NttVector(s))), Transformed(Residues(e[i])))
      ensures Bounded(t[i], 3404)
    {
      PublicWordCorrect(a[i], NttVector(s), e[i]);
    }
    PublicVectorAt(StoredMatrix(a), ResiduesV(s), ResiduesV(e));
    assert StoredVector(t) == PublicVector(StoredMatrix(a), ResiduesV(s), ResiduesV(e));
  }

  lemma PublicVectorAt(a: seq<seq<RingPoly>>, s: seq<RingPoly>, e: seq<RingPoly>)
    requires IsMatrix(a, |e|, |s|)
    ensures forall i | 0 <= i < |e| :: PublicVector(a, s, e)[i] == AddP(Dot(a[i], TransformedV(s)), Transformed(e[i]))
  {
    hide Dot, Transformed, AddP;
  }

  // ---- encryption ----

  function EncryptUWord(row: seq<TqWords>, yHat: seq<TqWords>, e1: RqWords): RqWords
    requires |row| == |yHat|
  {
    AddWords(InverseElement(DotWords(row, yHat, CachesOf(yHat))), e1)
  }

  function EncryptUWords(at: seq<seq<TqWords>>, yHat: seq<TqWords>, e1: seq<RqWords>): (u: seq<RqWords>)
    requires IsWordMatrix(at, |e1|, |yHat|)
    ensures |u| == |e1|
  {
    seq(|e1|, i requires 0 <= i < |e1| => EncryptUWord(at[i], yHat, e1[i]))
  }

  function EncryptVWord(tHat: seq<TqWords>, yHat: seq<TqWords>, e2: RqWords, mu: RqWords): RqWords
    requires |tHat| == |yHat|
  {
    AddWords(AddWords(InverseElement(DotWords(tHat, yHat, CachesOf(yHat))), e2), mu)
  }

  lemma EncryptUWordCorrect(row: seq<TqWords>, yHat: seq<TqWords>, e1: RqWords)
    requires |row| == |yHat| <= 4 && AllBounded(row, 3328) && AllBounded(yHat, 1664) && Bounded(e1, 3)
    ensures Residues(EncryptUWord(row, yHat, e1)) == AddP(Untransformed(Dot(StoredVector(row), StoredVector(yHat))), Residues(e1))
    ensures Bounded(EncryptUWord(row, yHat, e1), 2253)
  {
    hide DotWords, Dot, StoredVector, CachesOf, InverseElement, Residues, AddWords, Untransformed, AddP;
    assert AllBounded(yHat, 4993);
    FourComponents(|row|);
    DotUntransformed(row, yHat, 3328, 4993);
    AddWordsCorrect(InverseElement(DotWords(row, yHat, CachesOf(yHat))), e1, 2250, 3);
  }

  lemma EncryptUAt(at: seq<seq<RingPoly>>, y: seq<RingPoly>, e1: seq<RingPoly>)
    requires IsMatrix(at, |e1|, |y|)
    ensures forall i | 0 <= i < |e1| :: EncryptU(at, y, e1)[i] == AddP(Untransformed(Dot(at[i], TransformedV(y))), e1[i])
  {
    hide Dot, Untransformed, AddP;
  }

  lemma EncryptUWordsCorrect(at: seq<seq<TqWords>>, y: seq<RqWords>, e1: seq<RqWords>)
    requires |e1| <= 4 && |y| <= 4 && IsWordMatrix(at, |e1|, |y|) && MatrixBounded(at) && AllBounded(y, 3) && AllBounded(e1, 3)
    ensures IsMatrix(StoredMatrix(at), |e1|, |y|)
    ensures ResiduesV(EncryptUWords(at, NttVector(y), e1)) == EncryptU(StoredMatrix(at), ResiduesV(y), ResiduesV(e1))
  {
    hide EncryptUWord, StoredResidues, Residues, Dot, Untransformed, AddP, NttVector, Bounded, TransformedV;
    NttVectorCorrect(y, 3);
    var u := EncryptUWords(at, NttVector(y), e1);
    forall i | 0 <= i < |e1|
      ensures Residues(u[i]) == AddP(Untransformed(Dot(StoredVector(at[i]), StoredVector(NttVector(y)))), Residues(e1[i]))
    {
      EncryptUWordCorrect(at[i], NttVector(y), e1[i]);
    }
    EncryptUAt(StoredMatrix(at), ResiduesV(y), ResiduesV(e1));
    assert ResiduesV(u) == EncryptU(StoredMatrix(at), ResiduesV(y), ResiduesV(e1));
  }

  lemma EncryptVWordCorrect(tHat: seq<TqWords>, y: seq<RqWords>, e2: RqWords, mu: RqWords)
    requires |tHat| == |y| <= 4 && AllBounded(tHat, 4993) && AllBounded(y, 3) && Bounded(e2, 3) && Bounded(mu, 3328)
    ensures Residues(EncryptVWord(tHat, NttVector(y), e2, mu))
         == EncryptV(StoredVector(tHat), ResiduesV(y), Residues(e2), Residues(mu))
    ensures Bounded(EncryptVWord(tHat, NttVector(y), e2, mu), 5581)
  {
    hide DotWords, Dot, StoredVector, CachesOf, InverseElement, Residues, AddWords, Untransformed, AddP, NttVector, TransformedV;
    NttVectorCorrect(y, 3);
    var yHat := NttVector(y);
    assert AllBounded(yHat, 3328);
    FourComponents(|tHat|);
    DotUntransformed(tHat, yHat, 4993, 3328);
    var h := InverseElement(DotWords(tHat, yHat, CachesOf(yHat)));
    AddWordsCorrect(h, e2, 2250, 3);
    AddWordsCorrect(AddWords(h, e2), mu, 2253, 3328);
  }

  // ---- decryption ----

  function DecryptWWord(u: seq<RqWords>, v: RqWords, sHat: seq<TqWords>): RqWords
    requires |u| == |sHat|
  {
    SubWords(v, InverseElement(DotWords(NttVector(u), sHat, CachesOf(sHat))))
  }

  lemma DecryptWWordCorrect(u: seq<RqWords>, v: RqWords, sHat: seq<TqWords>)
    requires |u| == |sHat| <= 4 && AllBounded(u, 3328) && Bounded(v, 3328) && AllBounded(sHat, 3328)
    ensures Residues(DecryptWWord(u, v, sHat)) == DecryptW(StoredVector(sHat), ResiduesV(u), Residues(v))
    ensures Bounded(DecryptWWord(u, v, sHat), 5578)
  {
    hide DotWords, Dot, StoredVector, CachesOf, InverseElement, Residues, SubWords, Untransformed, SubP, NttVector, TransformedV;
    NttVectorCorrect(u, 3328);
    assert AllBounded(NttVector(u), 4993);
    FourComponents(|u|);
    DotUntransformed(NttVector(u), sHat, 4993, 3328);
    SubWordsCorrect(v, InverseElement(DotWords(NttVector(u), sHat, CachesOf(sHat))), 3328, 2250);
  }
}
