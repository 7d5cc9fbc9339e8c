/** K-PKE over Z/q: Algorithms 13 to 15 of FIPS 203 with the sampled values as
    inputs, and the exact condition under which decryption undoes encryption. */
module PkeSpec {
  import opened Words
  import opened Zq
  import opened Polynomials
  import opened Bits
  import opened Packing
  import opened Blocks
  import opened Encoding
  import opened BaseMul
  import opened TqAlgebra

  /** t_hat = A s_hat + e_hat. */
  function PublicVector(a: seq<seq<RingPoly>>, s: seq<RingPoly>, e: seq<RingPoly>): (t: seq<RingPoly>)
    requires IsMatrix(a, |e|, |s|)
    ensures |t| == |e|
  {
    AddV(MatVec(a, TransformedV(s)), TransformedV(e))
  }

  function UntransformedV(v: seq<RingPoly>): (r: seq<RingPoly>)
    ensures |r| == |v|
  {
    seq(|v|, i requires 0 <= i < |v| => Untransformed(v[i]))
  }

  /** u = NTT^-1(A^T y_hat) + e1. */
  function EncryptU(at: seq<seq<RingPoly>>, y: seq<RingPoly>, e1: seq<RingPoly>): (u: seq<RingPoly>)
    requires IsMatrix(at, |e1|, |y|)
    ensures |u| == |e1|
  {
    AddV(UntransformedV(MatVec(at, TransformedV(y))), e1)
  }

  /** v = NTT^-1(t_hat^T y_hat) + e2 + mu. */
  function EncryptV(tHat: seq<RingPoly>, y: seq<RingPoly>, e2: RingPoly, mu: RingPoly): RingPoly
    requires |tHat| == |y|
  {
    AddP(AddP(Untransformed(Dot(tHat, TransformedV(y))), e2), mu)
  }

  /** The serialized compressed vector, component after component. */
  function EncodeVector(u: seq<RingPoly>, d: nat): (bytes: seq<byte>)
    ensures |bytes| == 32 * d * |u|
  {
    Flatten(EncodedBlocks(u, d), 32 * d)
  }

  function EncodedBlocks(u: seq<RingPoly>, d: nat): (blocks: seq<seq<byte>>)
    ensures |blocks| == |u| && AllSized(blocks, 32 * d)
  {
    seq(|u|, i requires 0 <= i < |u| => EncodeCompressed(u[i], d))
  }

  function DecodeVector(bytes: seq<byte>, k: nat, d: nat): (u: seq<RingPoly>)
    requires 1 <= d <= 12 && |bytes| == 32 * d * k
    ensures |u| == k
  {
    var blocks := Chunks(bytes, 32 * d, k);
    seq(k, i requires 0 <= i < k => DecodeCompressed(blocks[i], d))
  }

  function CiphertextBytes(u: seq<RingPoly>, v: RingPoly, du: nat, dv: nat): (c: seq<byte>)
    ensures |c| == 32 * du * |u| + 32 * dv
  {
    EncodeVector(u, du) + EncodeCompressed(v, dv)
  }

  /** Component i of u is encoded at bytes 32 du i to 32 du (i + 1), v after the last. */
  lemma CiphertextParts(u: seq<RingPoly>, v: RingPoly, du: nat, dv: nat)
    ensures var c, size := CiphertextBytes(u, v, du, dv), 32 * du;
      && (forall i | 0 <= i < |u| :: Slice(c, size * i, size * (i + 1)) == EncodeCompressed(u[i], du))
      && Slice(c, size * |u|, |c|) == EncodeCompressed(v, dv)
  {
    hide EncodeCompressed, Flatten, CiphertextBytes, EncodeVector, Slice;
    var size, blocks := 32 * du, EncodedBlocks(u, du);
    var encoded, last := EncodeVector(u, du), EncodeCompressed(v, dv);
    EncodedConcat(u, v, du, dv);
    forall i | 0 <= i < |u| ensures Slice(encoded + last, size * i, size * (i + 1)) == EncodeCompressed(u[i], du) {
      FlattenSlice(blocks, size, i);
      BlocksFit(size, i, |u|);
      SliceOfConcat(encoded, last, size * i, size * (i + 1));
      assert blocks[i] == EncodeCompressed(u[i], du);
    }
    TailOfConcat(encoded, last);
  }

  lemma SliceOfConcat(a: seq<byte>, b: seq<byte>, from: nat, to: nat)
    requires from <= to <= |a|
    ensures Slice(a + b, from, to) == Slice(a, from, to)
  {
  }

  lemma TailOfConcat(a: seq<byte>, b: seq<byte>)
    ensures Slice(a + b, |a|, |a + b|) == b
  {
  }

  lemma EncodedConcat(u: seq<RingPoly>, v: RingPoly, du: nat, dv: nat)
    ensures CiphertextBytes(u, v, du, dv) == EncodeVector(u, du) + EncodeCompressed(v, dv)
    ensures EncodeVector(u, du) == Flatten(EncodedBlocks(u, du), 32 * du)
  {
  }

  function Encrypt(at: seq<seq<RingPoly>>, tHat: seq<RingPoly>, y: seq<RingPoly>, e1: seq<RingPoly>, e2: RingPoly,
                   m: seq<byte>, du: nat, dv: nat): (c: seq<byte>)
    requires IsMatrix(at, |e1|, |y|) && |tHat| == |y|
    ensures |c| == 32 * du * |e1| + 32 * dv
  {
    CiphertextBytes(EncryptU(at, y, e1), EncryptV(tHat, y, e2, MessagePoly(m)), du, dv)
  }

  /** w = v' - NTT^-1(s_hat^T NTT(u')). */
  function DecryptW(sHat: seq<RingPoly>, u: seq<RingPoly>, v: RingPoly): RingPoly
    requires |sHat| == |u|
  {
    SubP(v, Untransformed(Dot(TransformedV(u), sHat)))
  }

  function Decrypt(sHat: seq<RingPoly>, c: seq<byte>, du: nat, dv: nat): (m: seq<byte>)
    requires 1 <= du <= 12 && 1 <= dv <= 12 && |c| == 32 * du * |sHat| + 32 * dv
    ensures |m| == 32
  {
    var split := 32 * du * |sHat|;
    MessageOf(DecryptW(sHat, DecodeVector(c[..split], |sHat|, du), DecodeCompressed(c[split..], dv)))
  }

  /** Decryption, part by part: component j of u' is decoded from bytes 32 du j to
      32 du (j + 1), v' from the rest, and the message encodes v' - NTT^-1 of s_hat with u'. */
  lemma DecryptionParts(sHat: seq<RingPoly>, c: seq<byte>, du: nat, dv: nat, u: seq<RingPoly>)
    requires 1 <= du <= 12 && 1 <= dv <= 12 && |c| == 32 * du * |sHat| + 32 * dv && |u| == |sHat|
    requires var size := 32 * du; forall j | 0 <= j < |u| :: u[j] == DecodeCompressed(Slice(c, size * j, size * (j + 1)), du)
    ensures Decrypt(sHat, c, du, dv)
         == EncodeCompressed(SubP(DecodeCompressed(Slice(c, 32 * du * |sHat|, |c|), dv), Untransformed(Dot(TransformedV(u), sHat))), 1)
  {
    hide DecodeCompressed, Untransformed, Dot, TransformedV, SubP, EncodeCompressed;
    hide Slice, DecodeVector;
    SliceToEnd(c, 32 * du * |sHat|);
    DecodedParts(c, 32 * du, |u|, 32 * du * |u|, du, u);
  }

  lemma SliceToEnd(c: seq<byte>, from: nat)
    requires from <= |c|
    ensures Slice(c, from, |c|) == c[from..]
  {
  }

  lemma DecodedParts(c: seq<byte>, size: nat, k: nat, split: nat, du: nat, u: seq<RingPoly>)
    requires 1 <= du <= 12 && size == 32 * du && |u| == k && split == size * k == 32 * du * k && split <= |c|
    requires forall j | 0 <= j < k :: u[j] == DecodeCompressed(Slice(c, size * j, size * (j + 1)), du)
    ensures DecodeVector(c[..split], k, du) == u
  {
    hide DecodeCompressed, Slice, Chunks;
    var decoded := DecodeVector(c[..split], k, du);
    forall j | 0 <= j < k ensures decoded[j] == u[j] {
      ChunkIsSlice(c, split, size, k, j);
    }
  }

  // ---- compression through the ciphertext ----

  /** What a polynomial becomes through compression and back. */
  function Rounded(p: RingPoly, d: nat): RingPoly
    requires 1 <= d <= 12
  {
    DecompressPoly(CompressPoly(p, d), d)
  }

  function RoundedV(u: seq<RingPoly>, d: nat): (r: seq<RingPoly>)
    requires 1 <= d <= 12
    ensures |r| == |u|
  {
    seq(|u|, i requires 0 <= i < |u| => Rounded(u[i], d))
  }

  /** Every coefficient compressed and decompressed. */
  lemma RoundedAt(p: RingPoly, d: nat, i: nat)
    requires 1 <= d <= 12 && i < 256
    ensures Rounded(p, d)[i] == (3329 * CompressValue(p[i], d) + Pow2(d) / 2) / Pow2(d)
    ensures CompressValue(p[i], d) == (Pow2(d) * p[i] + 1664) / 3329 % Pow2(d)
  {
    hide Pow2;
  }

  lemma DecodeOfEncode(p: RingPoly, d: nat)
    requires 1 <= d <= 12
    ensures DecodeCompressed(EncodeCompressed(p, d), d) == Rounded(p, d)
  {
    UnpackOfPack(CompressPoly(p, d), d);
  }

  lemma DecodeOfEncodeVector(u: seq<RingPoly>, d: nat)
    requires 1 <= d <= 12
    ensures DecodeVector(EncodeVector(u, d), |u|, d) == RoundedV(u, d)
  {
    hide DecodeCompressed, EncodeCompressed, Rounded, Flatten, Chunks;
    ChunksOfFlatten(EncodedBlocks(u, d), 32 * d);
    forall i | 0 <= i < |u| ensures DecodeVector(EncodeVector(u, d), |u|, d)[i] == RoundedV(u, d)[i] {
      DecodeOfEncode(u[i], d);
    }
  }

  // ---- the noise equation ----

  function SubV(xs: seq<RingPoly>, ys: seq<RingPoly>): (r: seq<RingPoly>)
    requires |xs| == |ys|
    ensures |r| == |xs|
  {
    seq(|xs|, i requires 0 <= i < |xs| => SubP(xs[i], ys[i]))
  }

  /** The decryption noise e^T y + e2 + c_v - s^T (e1 + c_u), with c_u and c_v the
      compression errors of the ciphertext. */
  function DecryptionNoise(s: seq<RingPoly>, e: seq<RingPoly>, y: seq<RingPoly>, e1: seq<RingPoly>, e2: RingPoly,
                           cu: seq<RingPoly>, cv: RingPoly): RingPoly
    requires |s| == |e1| == |cu| && |e| == |y|
  {
    SubP(AddP(AddP(InnerProduct(e, y), e2), cv), InnerProduct(s, AddV(e1, cu)))
  }

  lemma AddThenSub(a: RingPoly, b: RingPoly)
    ensures SubP(AddP(a, b), b) == a && AddP(a, SubP(b, a)) == b && AddP(SubP(a, b), b) == a
  {
    hide Plus, Minus;
    forall i | 0 <= i < 256
      ensures Minus(Plus(a[i], b[i]), b[i]) == a[i] && Plus(a[i], Minus(b[i], a[i])) == b[i] && Plus(Minus(a[i], b[i]), b[i]) == a[i]
    {
      PlusThenMinus(a[i], b[i]);
      PlusThenMinus(b[i], a[i]);
    }
  }

  lemma MinusWraps(a: Zq, b: Zq)
    ensures Minus(a, b) == if a >= b then a - b else a - b + 3329
  {
  }

  lemma PlusThenMinus(a: Zq, b: Zq)
    ensures Minus(Plus(a, b), b) == a && Plus(a, Minus(b, a)) == b && Plus(Minus(a, b), b) == a
  {
    hide Plus, Minus;
    PlusWraps(a, b);
    MinusWraps(Plus(a, b), b);
    MinusWraps(b, a);
    PlusWraps(a, Minus(b, a));
    MinusWraps(a, b);
    PlusWraps(Minus(a, b), b);
  }

  lemma UntransformedAdd(x: RingPoly, y: RingPoly)
    ensures Untransformed(AddP(x, y)) == AddP(Untransformed(x), Untransformed(y))
  {
    hide Untransformed, AddP, SubP;
    AddThenSub(x, y);
    UntransformedSub(AddP(x, y), y);
    AddThenSub(Untransformed(AddP(x, y)), Untransformed(y));
  }

  lemma InnerProductCommutes(xs: seq<RingPoly>, ys: seq<RingPoly>)
    requires |xs| == |ys|
    ensures InnerProduct(xs, ys) == InnerProduct(ys, xs)
  {
    hide InnerProduct, Dot, Transformed, Untransformed, TransformedV;
    DotOfTransforms(xs, ys);
    DotOfTransforms(ys, xs);
    DotCommutes(TransformedV(xs), TransformedV(ys));
    UntransformedOfTransformed(InnerProduct(xs, ys));
    UntransformedOfTransformed(InnerProduct(ys, xs));
  }

  /** NTT of u + c_u: the matrix term plus the transform of the errors. */
  lemma TransformedU(m: seq<RingPoly>, e1: seq<RingPoly>, cu: seq<RingPoly>)
    requires |m| == |e1| == |cu|
    ensures TransformedV(AddV(AddV(UntransformedV(m), e1), cu)) == AddV(m, TransformedV(AddV(e1, cu)))
  {
    hide Transformed, Untransformed, AddP;
    var l, r := TransformedV(AddV(AddV(UntransformedV(m), e1), cu)), AddV(m, TransformedV(AddV(e1, cu)));
    forall i | 0 <= i < |m| ensures l[i] == r[i] {
      AddAssociates(Untransformed(m[i]), e1[i], cu[i]);
      TransformedAdd(Untransformed(m[i]), AddP(e1[i], cu[i]));
      TransformedOfUntransformed(m[i]);
    }
  }

  lemma SumCancels(m: Zq, ie: Zq, e2: Zq, mu: Zq, cv: Zq, jf: Zq)
    ensures Minus(Plus(Plus(Plus(Plus(m, ie), e2), mu), cv), Plus(m, jf)) == Plus(mu, Minus(Plus(Plus(ie, e2), cv), jf))
  {
    hide Residue, Plus, Minus;
    ResidueOfZq(m);
    ResidueOfZq(ie);
    ResidueOfZq(e2);
    ResidueOfZq(mu);
    ResidueOfZq(cv);
    ResidueOfZq(jf);
    ResiduePlus(m, ie);
    ResiduePlus(m + ie, e2);
    ResiduePlus(m + ie + e2, mu);
    ResiduePlus(m + ie + e2 + mu, cv);
    ResiduePlus(m, jf);
    ResidueMinus(m + ie + e2 + mu + cv, m + jf);
    ResiduePlus(ie, e2);
    ResiduePlus(ie + e2, cv);
    ResidueMinus(ie + e2 + cv, jf);
    ResiduePlus(mu, ie + e2 + cv - jf);
    var l: int, r: int := m + ie + e2 + mu + cv - (m + jf), mu + (ie + e2 + cv - jf);
    assert l == r;
  }

  lemma SumCancelsP(m: RingPoly, ie: RingPoly, e2: RingPoly, mu: RingPoly, cv: RingPoly, jf: RingPoly)
    ensures SubP(AddP(AddP(AddP(AddP(m, ie), e2), mu), cv), AddP(m, jf)) == AddP(mu, SubP(AddP(AddP(ie, e2), cv), jf))
  {
    hide Plus, Minus;
    forall i | 0 <= i < 256
      ensures Minus(Plus(Plus(Plus(Plus(m[i], ie[i]), e2[i]), mu[i]), cv[i]), Plus(m[i], jf[i]))
           == Plus(mu[i], Minus(Plus(Plus(ie[i], e2[i]), cv[i]), jf[i]))
    {
      SumCancels(m[i], ie[i], e2[i], mu[i], cv[i], jf[i]);
    }
  }

  /** Decrypting (u + c_u, v + c_v) leaves the message polynomial plus the noise,
      for every matrix, secret, error and message. */
  lemma DecryptionEquation(a: seq<seq<RingPoly>>, s: seq<RingPoly>, e: seq<RingPoly>, y: seq<RingPoly>, e1: seq<RingPoly>,
                           e2: RingPoly, mu: RingPoly, cu: seq<RingPoly>, cv: RingPoly)
    requires IsMatrix(a, |e|, |s|) && |y| == |e| && |e1| == |cu| == |s|
    ensures DecryptW(TransformedV(s), AddV(EncryptU(Transpose(a, |s|), y, e1), cu),
                     AddP(EncryptV(PublicVector(a, s, e), y, e2, mu), cv))
         == AddP(mu, DecryptionNoise(s, e, y, e1, e2, cu, cv))
  {
    hide Transformed, Untransformed, AddP, SubP, Dot, InnerProduct, MatVec, Transpose, AddV, TransformedV, UntransformedV;
    var sHat, yHat := TransformedV(s), TransformedV(y);
    var m := MatVec(Transpose(a, |s|), yHat);
    var f := AddV(e1, cu);
    var common := Dot(m, sHat);
    MatrixMovesAcross(a, sHat, yHat);
    TransformedU(m, e1, cu);
    DotAdds(m, TransformedV(f), sHat);
    DotOfTransforms(f, s);
    InnerProductCommutes(f, s);
    DotAdds(MatVec(a, sHat), TransformedV(e), yHat);
    DotOfTransforms(e, y);
    var ie, jf := InnerProduct(e, y), InnerProduct(s, f);
    UntransformedAdd(common, Transformed(ie));
    UntransformedAdd(common, Transformed(jf));
    UntransformedOfTransformed(ie);
    UntransformedOfTransformed(jf);
    SumCancelsP(Untransformed(common), ie, e2, mu, cv, jf);
  }

  /** The compression errors of a ciphertext. */
  function ErrorV(u: seq<RingPoly>, d: nat): (r: seq<RingPoly>)
    requires 1 <= d <= 12
    ensures |r| == |u|
  {
    SubV(RoundedV(u, d), u)
  }

  function ErrorP(v: RingPoly, d: nat): RingPoly
    requires 1 <= d <= 12
  {
    SubP(Rounded(v, d), v)
  }

  lemma ErrorsAdd(u: seq<RingPoly>, v: RingPoly, du: nat, dv: nat)
    requires 1 <= du <= 12 && 1 <= dv <= 12
    ensures AddV(u, ErrorV(u, du)) == RoundedV(u, du) && AddP(v, ErrorP(v, dv)) == Rounded(v, dv)
  {
    hide Rounded, AddP, SubP;
    AddThenSub(v, Rounded(v, dv));
    forall i | 0 <= i < |u| ensures AddP(u[i], SubP(Rounded(u[i], du), u[i])) == Rounded(u[i], du) {
      AddThenSub(u[i], Rounded(u[i], du));
    }
  }

  lemma SplitCiphertext(u: seq<RingPoly>, v: RingPoly, du: nat, dv: nat)
    requires 1 <= du <= 12 && 1 <= dv <= 12
    ensures var c, split := CiphertextBytes(u, v, du, dv), 32 * du * |u|;
            DecodeVector(c[..split], |u|, du) == RoundedV(u, du) && DecodeCompressed(c[split..], dv) == Rounded(v, dv)
  {
    hide DecodeVector, EncodeVector, DecodeCompressed, EncodeCompressed, Rounded;
    var c, split := CiphertextBytes(u, v, du, dv), 32 * du * |u|;
    assert c[..split] == EncodeVector(u, du) && c[split..] == EncodeCompressed(v, dv);
    DecodeOfEncodeVector(u, du);
    DecodeOfEncode(v, dv);
  }

  /** The noise of one encryption under one key. */
  function NoiseOf(a: seq<seq<RingPoly>>, s: seq<RingPoly>, e: seq<RingPoly>, y: seq<RingPoly>, e1: seq<RingPoly>,
                   e2: RingPoly, m: seq<byte>, du: nat, dv: nat): RingPoly
    requires IsMatrix(a, |e|, |s|) && |y| == |e| && |e1| == |s| && 1 <= du <= 12 && 1 <= dv <= 12
  {
    DecryptionNoise(s, e, y, e1, e2,
                    ErrorV(EncryptU(Transpose(a, |s|), y, e1), du),
                    ErrorP(EncryptV(PublicVector(a, s, e), y, e2, MessagePoly(m)), dv))
  }

  /** Decryption recovers the message exactly when every coefficient of the noise is
      tolerated by its message bit: for every matrix, secret, randomness and message. */
  lemma DecryptsIff(a: seq<seq<RingPoly>>, s: seq<RingPoly>, e: seq<RingPoly>, y: seq<RingPoly>, e1: seq<RingPoly>,
                    e2: RingPoly, m: seq<byte>, du: nat, dv: nat)
    requires IsMatrix(a, |e|, |s|) && |y| == |e| && |e1| == |s| && 1 <= du <= 12 && 1 <= dv <= 12 && |m| == 32
    ensures Decrypt(TransformedV(s), Encrypt(Transpose(a, |s|), PublicVector(a, s, e), y, e1, e2, m, du, dv), du, dv) == m
       <==> forall i | 0 <= i < 256 :: Tolerated(MessageBit(m, i), NoiseOf(a, s, e, y, e1, e2, m, du, dv)[i])
  {
    hide DecryptW, EncryptU, EncryptV, DecryptionNoise, ErrorV, ErrorP, MessageOf, MessagePoly, MessageBit, Tolerated;
    hide CiphertextBytes, DecodeVector, DecodeCompressed, TransformedV, Transpose, PublicVector, RoundedV, Rounded, AddV, AddP;
    var u, v := EncryptU(Transpose(a, |s|), y, e1), EncryptV(PublicVector(a, s, e), y, e2, MessagePoly(m));
    SplitCiphertext(u, v, du, dv);
    ErrorsAdd(u, v, du, dv);
    DecryptionEquation(a, s, e, y, e1, e2, MessagePoly(m), ErrorV(u, du), ErrorP(v, dv));
    MessageSurvivesIff(m, NoiseOf(a, s, e, y, e1, e2, m, du, dv));
  }
}
