/** Centered binomial sampling: the word-parallel bit-field sums of
    `src/sampling.rs` against the bit-by-bit definition, Algorithm 8 of FIPS 203. */
module Cbd {
  import opened Words
  import F = Field
  import opened Bits
  import opened Packing

  /** Bit `k` of a byte stream, low bit first. */
  function StreamBit(bytes: seq<byte>, k: nat): nat
    requires k / 8 < |bytes|
  {
    Bit(bytes[k / 8], k % 8)
  }

  /** The sum of the `eta` stream bits from `k` on. */
  function BitSum(bytes: seq<byte>, k: nat, eta: nat): (s: nat)
    requires eta == 0 || (k + eta - 1) / 8 < |bytes|
    ensures s <= eta
  {
    if eta == 0 then 0 else BitSum(bytes, k, eta - 1) + StreamBit(bytes, k + eta - 1)
  }

  predicate IsEta(eta: nat) {
    eta == 2 || eta == 3
  }

  /** `SamplePolyCBD_eta`: coefficient i is the difference of two sums of `eta` bits. */
  function SamplePolyCbd(eta: nat, bytes: seq<byte>): (f: seq<i16>)
    requires IsEta(eta) && |bytes| == 64 * eta
    ensures |f| == 256 && forall i | 0 <= i < 256 :: Abs(f[i]) <= eta
  {
    seq(256, i requires 0 <= i < 256 => CbdCoefficient(eta, bytes, i))
  }

  function CbdCoefficient(eta: nat, bytes: seq<byte>, i: nat): (c: i16)
    requires IsEta(eta) && |bytes| == 64 * eta && i < 256
    ensures Abs(c) <= eta
  {
    BitSum(bytes, 2 * i * eta, eta) - BitSum(bytes, 2 * i * eta + eta, eta)
  }

  /** Algorithm 8 of FIPS 203, bit by bit: two bits less the next two at eta 2. */
  lemma CoefficientAtEta2(bytes: seq<byte>, i: nat)
    requires |bytes| == 128 && i < 256
    ensures SamplePolyCbd(2, bytes)[i]
         == Bit(bytes[4 * i / 8], 4 * i % 8) + Bit(bytes[(4 * i + 1) / 8], (4 * i + 1) % 8)
          - Bit(bytes[(4 * i + 2) / 8], (4 * i + 2) % 8) - Bit(bytes[(4 * i + 3) / 8], (4 * i + 3) % 8)
  {
    hide Bit;
    TwoBits(bytes, 4 * i);
    TwoBits(bytes, 4 * i + 2);
  }

  lemma TwoBits(bytes: seq<byte>, k: nat)
    requires (k + 1) / 8 < |bytes|
    ensures BitSum(bytes, k, 2) == Bit(bytes[k / 8], k % 8) + Bit(bytes[(k + 1) / 8], (k + 1) % 8)
  {
    hide Bit;
    assert BitSum(bytes, k, 1) == StreamBit(bytes, k);
  }

  /** Three bits less the next three at eta 3. */
  lemma CoefficientAtEta3(bytes: seq<byte>, i: nat)
    requires |bytes| == 192 && i < 256
    ensures SamplePolyCbd(3, bytes)[i]
         == Bit(bytes[6 * i / 8], 6 * i % 8) + Bit(bytes[(6 * i + 1) / 8], (6 * i + 1) % 8) + Bit(bytes[(6 * i + 2) / 8], (6 * i + 2) % 8)
          - Bit(bytes[(6 * i + 3) / 8], (6 * i + 3) % 8) - Bit(bytes[(6 * i + 4) / 8], (6 * i + 4) % 8) - Bit(bytes[(6 * i + 5) / 8], (6 * i + 5) % 8)
  {
    hide Bit, BitSum;
    ThreeBits(bytes, 6 * i);
    ThreeBits(bytes, 6 * i + 3);
  }

  lemma ThreeBits(bytes: seq<byte>, k: nat)
    requires (k + 2) / 8 < |bytes|
    ensures BitSum(bytes, k, 3)
         == Bit(bytes[k / 8], k % 8) + Bit(bytes[(k + 1) / 8], (k + 1) % 8) + Bit(bytes[(k + 2) / 8], (k + 2) % 8)
  {
    hide Bit;
    TwoBits(bytes, k);
  }

  // ---- bit-field sums ----

  /** The sum of the low `eta` bits. */
  function LowSum(t: nat, eta: nat): (s: nat)
    requires IsEta(eta)
    ensures s <= eta
  {
    t % 2 + t / 2 % 2 + (if eta == 3 then t / 4 % 2 else 0)
  }

  function ShiftedDown(t: nat, k: nat): nat {
    QuotientIsNat(t, Pow2(k));
    t / Pow2(k)
  }

  /** The bit sums of `n` consecutive `eta`-bit fields. */
  function FieldSums(t: nat, eta: nat, n: nat): (sums: seq<nat>)
    requires IsEta(eta)
    ensures |sums| == n
    decreases n
  {
    if n == 0 then [] else [LowSum(t, eta)] + FieldSums(ShiftedDown(t, eta), eta, n - 1)
  }

  /** The mask with one bit set at the foot of each of `n` fields. */
  function FieldMask(eta: nat, n: nat): nat
    requires IsEta(eta)
  {
    if n == 0 then 0 else 1 + (if eta == 2 then 4 else 8) * FieldMask(eta, n - 1)
  }

  lemma Masks()
    ensures FieldMask(2, 16) == 0x5555_5555
    ensures FieldMask(3, 8) == 0x24_9249
  {
    assert FieldMask(2, 4) == 0x55 && FieldMask(2, 8) == 0x5555 && FieldMask(2, 12) == 0x55_5555;
    assert FieldMask(3, 4) == 0x249;
  }

  lemma AndQuads(t: nat, m: nat)
    ensures And(t, 4 * m + 1) == t % 2 + 4 * And(t / 4, m)
  {
    AndStep(t, 2 * m);
    AndDouble(t / 2, m);
    assert t / 2 / 2 == t / 4;
  }

  lemma AndDouble(t: nat, m: nat)
    ensures And(t, 2 * m) == 2 * And(t / 2, m)
  {
    assert 2 * m / 2 == m && 2 * m % 2 == 0;
  }

  lemma AndOctets(t: nat, m: nat)
    ensures And(t, 8 * m + 1) == t % 2 + 8 * And(t / 8, m)
  {
    AndQuads(t, 2 * m);
    AndDouble(t / 4, m);
    assert t / 4 / 2 == t / 8;
  }

  lemma FieldSumsStep(t: nat, eta: nat, n: nat)
    requires IsEta(eta) && n > 0
    ensures Value(FieldSums(t, eta, n), eta)
         == LowSum(t, eta) + (if eta == 2 then 4 else 8) * Value(FieldSums(if eta == 2 then t / 4 else t / 8, eta, n - 1), eta)
    ensures FieldMask(eta, n) == (if eta == 2 then 4 else 8) * FieldMask(eta, n - 1) + 1
  {
    assert Pow2(2) == 4 && Pow2(3) == 8;
    assert FieldSums(t, eta, n)[1..] == FieldSums(ShiftedDown(t, eta), eta, n - 1);
  }

  lemma QuotientsCommute(t: nat)
    ensures t / 2 / 4 == t / 4 / 2 && t / 2 / 8 == t / 8 / 2 && t / 4 / 8 == t / 8 / 4
    ensures LowSum(t, 2) == t % 2 + t / 2 % 2 && LowSum(t, 3) == t % 2 + t / 2 % 2 + t / 4 % 2
  {
  }

  /** Two masked shifts add every pair of bits in place. */
  lemma {:induction false} PairSums(t: nat, n: nat)
    ensures And(t, FieldMask(2, n)) + And(t / 2, FieldMask(2, n)) == Value(FieldSums(t, 2, n), 2)
    decreases n
  {
    if n > 0 {
      PairSums(t / 4, n - 1);
      hide And, FieldMask, Value, FieldSums, LowSum;
      var m := FieldMask(2, n - 1);
      FieldSumsStep(t, 2, n);
      AndQuads(t, m);
      AndQuads(t / 2, m);
      QuotientsCommute(t);
    }
  }

  /** Three masked shifts add every triple of bits in place. */
  lemma {:induction false} TripleSums(t: nat, n: nat)
    ensures And(t, FieldMask(3, n)) + And(t / 2, FieldMask(3, n)) + And(t / 4, FieldMask(3, n)) == Value(FieldSums(t, 3, n), 3)
    decreases n
  {
    if n > 0 {
      TripleSums(t / 8, n - 1);
      hide And, FieldMask, Value, FieldSums, LowSum;
      var m := FieldMask(3, n - 1);
      FieldSumsStep(t, 3, n);
      AndOctets(t, m);
      AndOctets(t / 2, m);
      AndOctets(t / 4, m);
      QuotientsCommute(t);
    }
  }

  /** Field `i` sums the `eta` bits from bit `eta * i` on. */
  lemma {:induction false} FieldSumAt(t: nat, eta: nat, n: nat, i: nat)
    requires IsEta(eta) && i < n
    ensures FieldSums(t, eta, n)[i] == LowSum(ShiftedDown(t, eta * i), eta)
    decreases i
  {
    if i > 0 {
      FieldSumAt(ShiftedDown(t, eta), eta, n - 1, i - 1);
      Pow2Adds(eta, eta * (i - 1));
      assert eta * i == eta + eta * (i - 1);
      ModOfProduct(t, Pow2(eta), Pow2(eta * (i - 1)));
    } else {
      assert eta * i == 0;
    }
  }

  lemma LowSumIsBits(t: nat, k: nat, eta: nat)
    requires IsEta(eta)
    ensures LowSum(ShiftedDown(t, k), eta) == Bit(t, k) + Bit(t, k + 1) + (if eta == 3 then Bit(t, k + 2) else 0)
  {
    ModOfProduct(t, Pow2(k), 2);
    ModOfProduct(t, Pow2(k), 4);
    Pow2Adds(k, 1);
    Pow2Adds(k, 2);
    assert Pow2(1) == 2 && Pow2(2) == 4;
  }

  /** Coefficients one input word yields. */
  function PerWord(eta: nat): nat { if eta == 2 then 8 else 4 }

  /** The number of input words. */
  function WordCount(eta: nat): nat { if eta == 2 then 32 else 64 }

  /** The little-endian input word `w`: four bytes, or three when `eta` is 3. */
  function WordOf(eta: nat, bytes: seq<byte>, w: nat): nat
    requires IsEta(eta) && |bytes| == 64 * eta && w < WordCount(eta)
  {
    if eta == 2 then Value(bytes[4 * w..4 * w + 4], 8) else Value(bytes[3 * w..3 * w + 3], 8)
  }

  /** The stream position of field `i` of word `w`. */
  function FieldStart(eta: nat, w: nat, i: nat): (k: nat)
    requires IsEta(eta) && w < WordCount(eta) && i < 2 * PerWord(eta)
    ensures k + eta <= 512 * eta
  {
    if eta == 2 then 32 * w + 2 * i else 24 * w + 3 * i
  }

  /** Bit `b` of field `i` of input word `w` is its bit of the stream. */
  lemma WordBit(eta: nat, bytes: seq<byte>, w: nat, i: nat, b: nat)
    requires IsEta(eta) && |bytes| == 64 * eta && w < WordCount(eta) && i < 2 * PerWord(eta) && b < eta
    ensures Bit(WordOf(eta, bytes, w), eta * i + b) == StreamBit(bytes, FieldStart(eta, w, i) + b)
  {
    hide Bit, Value;
    if eta == 2 {
      BitOfBytes(bytes, 4 * w, 4, 2 * i + b);
    } else {
      BitOfBytes(bytes, 3 * w, 3, 3 * i + b);
    }
  }

  lemma BitOfBytes(bytes: seq<byte>, from: nat, n: nat, k: nat)
    requires from + n <= |bytes| && k < 8 * n
    ensures Bit(Value(bytes[from..from + n], 8), k) == StreamBit(bytes, 8 * from + k)
  {
    hide Bit, Value;
    var word := bytes[from..from + n];
    BytesAreDigits(word);
    BitOfValue(word, 8, k / 8, k % 8);
    assert k / 8 * 8 + k % 8 == k;
    assert (8 * from + k) / 8 == from + k / 8 && (8 * from + k) % 8 == k % 8;
  }

  lemma BitSumUnfolds(bytes: seq<byte>, k: nat, eta: nat)
    requires IsEta(eta) && k + eta <= 8 * |bytes|
    ensures BitSum(bytes, k, eta)
         == StreamBit(bytes, k) + StreamBit(bytes, k + 1) + (if eta == 3 then StreamBit(bytes, k + 2) else 0)
  {
    hide StreamBit;
    assert BitSum(bytes, k, 2) == BitSum(bytes, k, 1) + StreamBit(bytes, k + 1);
    assert BitSum(bytes, k, 1) == BitSum(bytes, k, 0) + StreamBit(bytes, k);
  }

  /** Field `i` of word `w` sums `eta` consecutive stream bits. */
  lemma FieldIsBitSum(eta: nat, bytes: seq<byte>, w: nat, i: nat)
    requires IsEta(eta) && |bytes| == 64 * eta && w < WordCount(eta) && i < 2 * PerWord(eta)
    ensures FieldSums(WordOf(eta, bytes, w), eta, 2 * PerWord(eta))[i] == BitSum(bytes, FieldStart(eta, w, i), eta)
  {
    hide FieldSums, WordOf, FieldStart, LowSum, Bit, StreamBit, BitSum, ShiftedDown;
    FieldSumAt(WordOf(eta, bytes, w), eta, 2 * PerWord(eta), i);
    LowSumIsBits(WordOf(eta, bytes, w), eta * i, eta);
    WordBit(eta, bytes, w, i, 0);
    WordBit(eta, bytes, w, i, 1);
    if eta == 3 {
      WordBit(eta, bytes, w, i, 2);
    }
    BitSumUnfolds(bytes, FieldStart(eta, w, i), eta);
  }

  lemma FieldsAreDigits(t: nat, eta: nat, n: nat)
    requires IsEta(eta)
    ensures Digits(FieldSums(t, eta, n), eta)
  {
    hide FieldSums, LowSum;
    forall i | 0 <= i < n ensures FieldSums(t, eta, n)[i] < Pow2(eta) {
      FieldSumAt(t, eta, n, i);
      assert Pow2(2) == 4 && Pow2(3) == 8;
    }
  }

  /** Reading one field out of the sums. */
  function FieldOf(sums: nat, eta: nat, i: nat): nat {
    QuotientIsNat(sums, Pow2(eta * i));
    And(sums / Pow2(eta * i), Pow2(eta) - 1)
  }

  lemma FieldReads(eta: nat, bytes: seq<byte>, w: nat, i: nat, sums: nat)
    requires IsEta(eta) && |bytes| == 64 * eta && w < WordCount(eta) && i < 2 * PerWord(eta)
    requires sums == Value(FieldSums(WordOf(eta, bytes, w), eta, 2 * PerWord(eta)), eta)
    ensures FieldOf(sums, eta, i) == BitSum(bytes, FieldStart(eta, w, i), eta)
  {
    hide Value, FieldSums, WordOf, BitSum, And, Pow2, Digits;
    var fields := FieldSums(WordOf(eta, bytes, w), eta, 2 * PerWord(eta));
    FieldsAreDigits(WordOf(eta, bytes, w), eta, 2 * PerWord(eta));
    DigitOfValue(fields, eta, i);
    QuotientIsNat(sums, Pow2(eta * i));
    AndMask(sums / Pow2(eta * i), eta);
    FieldIsBitSum(eta, bytes, w, i);
  }

  /** Coefficient `j` of word `w` differences two adjacent fields of the sums. */
  lemma WordCoefficient(eta: nat, bytes: seq<byte>, w: nat, j: nat, sums: nat)
    requires IsEta(eta) && |bytes| == 64 * eta && w < WordCount(eta) && j < PerWord(eta)
    requires sums == Value(FieldSums(WordOf(eta, bytes, w), eta, 2 * PerWord(eta)), eta)
    ensures var a, b := FieldOf(sums, eta, 2 * j), FieldOf(sums, eta, 2 * j + 1);
            a <= eta && b <= eta && a - b == CbdCoefficient(eta, bytes, PerWord(eta) * w + j)
  {
    hide FieldOf, Value, FieldSums, WordOf, BitSum;
    FieldReads(eta, bytes, w, 2 * j, sums);
    FieldReads(eta, bytes, w, 2 * j + 1, sums);
  }

  /** `FieldElement::from(a) - FieldElement::from(b)` of two small sums. */
  lemma SmallDifference(a: nat, b: nat)
    requires a <= 3 && b <= 3
    ensures F.New(a) == a && F.New(b) == b && F.Sub(F.New(a), F.New(b)) == a - b
  {
  }

  /** The shifts and masks of the two word-parallel samplers. */
  lemma FieldShifts(sums: nat, j: nat)
    ensures FieldOf(sums, 2, 2 * j) == And(ShiftedDown(sums, 4 * j), 3)
    ensures FieldOf(sums, 2, 2 * j + 1) == And(ShiftedDown(sums, 4 * j + 2), 3)
    ensures FieldOf(sums, 3, 2 * j) == And(ShiftedDown(sums, 6 * j), 7)
    ensures FieldOf(sums, 3, 2 * j + 1) == And(ShiftedDown(sums, 6 * j + 3), 7)
  {
    hide And;
    assert Pow2(2) - 1 == 3 && Pow2(3) - 1 == 7;
    assert 2 * (2 * j) == 4 * j && 2 * (2 * j + 1) == 4 * j + 2;
    assert 3 * (2 * j) == 6 * j && 3 * (2 * j + 1) == 6 * j + 3;
  }

  lemma Eta2Word(bytes: seq<byte>, w: nat, t: nat)
    requires |bytes| == 128 && w < 32 && t == Value(bytes[4 * w..4 * w + 4], 8)
    ensures And(t, 0x5555_5555) + And(t / 2, 0x5555_5555) == Value(FieldSums(WordOf(2, bytes, w), 2, 16), 2)
  {
    hide And, Value, FieldSums, FieldMask;
    Masks();
    PairSums(t, 16);
  }

  lemma Eta3Word(bytes: seq<byte>, w: nat, t: nat)
    requires |bytes| == 192 && w < 64 && t == Value(bytes[3 * w..3 * w + 3], 8)
    ensures And(t, 0x24_9249) + And(t / 2, 0x24_9249) + And(t / 4, 0x24_9249) == Value(FieldSums(WordOf(3, bytes, w), 3, 8), 3)
  {
    hide And, Value, FieldSums, FieldMask;
    Masks();
    TripleSums(t, 8);
  }

  lemma Eta2Coefficient(bytes: seq<byte>, w: nat, j: nat, sums: nat)
    requires |bytes| == 128 && w < 32 && j < 8 && sums == Value(FieldSums(WordOf(2, bytes, w), 2, 16), 2)
    ensures var a, b := And(ShiftedDown(sums, 4 * j), 3), And(ShiftedDown(sums, 4 * j + 2), 3);
            a < 0x1_0000 && b < 0x1_0000 && F.Sub(F.New(a), F.New(b)) == CbdCoefficient(2, bytes, 8 * w + j)
  {
    hide FieldOf, Value, FieldSums, WordOf, And, ShiftedDown, CbdCoefficient, F.New, F.Sub;
    WordCoefficient(2, bytes, w, j, sums);
    FieldShifts(sums, j);
    SmallDifference(FieldOf(sums, 2, 2 * j), FieldOf(sums, 2, 2 * j + 1));
  }

  lemma Eta3Coefficient(bytes: seq<byte>, w: nat, j: nat, sums: nat)
    requires |bytes| == 192 && w < 64 && j < 4 && sums == Value(FieldSums(WordOf(3, bytes, w), 3, 8), 3)
    ensures var a, b := And(ShiftedDown(sums, 6 * j), 7), And(ShiftedDown(sums, 6 * j + 3), 7);
            a < 0x1_0000 && b < 0x1_0000 && F.Sub(F.New(a), F.New(b)) == CbdCoefficient(3, bytes, 4 * w + j)
  {
    hide FieldOf, Value, FieldSums, WordOf, And, ShiftedDown, CbdCoefficient, F.New, F.Sub;
    WordCoefficient(3, bytes, w, j, sums);
    FieldShifts(sums, j);
    SmallDifference(FieldOf(sums, 3, 2 * j), FieldOf(sums, 3, 2 * j + 1));
  }

  lemma SampledWhole(eta: nat, bytes: seq<byte>, f: seq<i16>)
    requires IsEta(eta) && |bytes| == 64 * eta && |f| == 256
    requires forall i | 0 <= i < 256 :: f[i] == CbdCoefficient(eta, bytes, i)
    ensures f == SamplePolyCbd(eta, bytes)
  {
    hide CbdCoefficient;
  }

  /** `SamplePolyCBD_2`, word-parallel: eight coefficients from each 4-byte word. */
  method SampleCbdEta2(bytes: seq<byte>) returns (f: array<i16>)
    requires |bytes| == 128
    ensures fresh(f) && f[..] == SamplePolyCbd(2, bytes)
  {
    hide FieldSums, WordOf, And, ShiftedDown, CbdCoefficient, Value, F.New, F.Sub, SamplePolyCbd;
    f := new i16[256];
    var w: nat := 0;
    while w < 32
      invariant w <= 32
      invariant forall i | 0 <= i < 8 * w :: f[i] == CbdCoefficient(2, bytes, i)
    {
      var t := Value(bytes[4 * w..4 * w + 4], 8);
      var sums := And(t, 0x5555_5555) + And(t / 2, 0x5555_5555);
      Eta2Word(bytes, w, t);
      var j: nat := 0;
      while j < 8
        invariant j <= 8
        invariant forall i | 0 <= i < 8 * w + j :: f[i] == CbdCoefficient(2, bytes, i)
      {
        Eta2Coefficient(bytes, w, j, sums);
        var a := And(ShiftedDown(sums, 4 * j), 3);
        var b := And(ShiftedDown(sums, 4 * j + 2), 3);
        f[8 * w + j] := F.Sub(F.New(a), F.New(b));
        j := j + 1;
      }
      w := w + 1;
    }
    SampledWhole(2, bytes, f[..]);
  }

  /** `SamplePolyCBD_3`: four coefficients from each 3-byte word. */
  method SampleCbdEta3(bytes: seq<byte>) returns (f: array<i16>)
    requires |bytes| == 192
    ensures fresh(f) && f[..] == SamplePolyCbd(3, bytes)
  {
    hide FieldSums, WordOf, And, ShiftedDown, CbdCoefficient, Value, F.New, F.Sub, SamplePolyCbd;
    f := new i16[256];
    var w: nat := 0;
    while w < 64
      invariant w <= 64
      invariant forall i | 0 <= i < 4 * w :: f[i] == CbdCoefficient(3, bytes, i)
    {
      var t := Value(bytes[3 * w..3 * w + 3], 8);
      var sums := And(t, 0x24_9249) + And(t / 2, 0x24_9249) + And(t / 4, 0x24_9249);
      Eta3Word(bytes, w, t);
      var j: nat := 0;
      while j < 4
        invariant j <= 4
        invariant forall i | 0 <= i < 4 * w + j :: f[i] == CbdCoefficient(3, bytes, i)
      {
        Eta3Coefficient(bytes, w, j, sums);
        var a := And(ShiftedDown(sums, 6 * j), 7);
        var b := And(ShiftedDown(sums, 6 * j + 3), 7);
        f[4 * w + j] := F.Sub(F.New(a), F.New(b));
        j := j + 1;
      }
      w := w + 1;
    }
    SampledWhole(3, bytes, f[..]);
  }

  /** `RqElement::sample_cbd`. */
  method SampleCbd(eta: nat, bytes: seq<byte>) returns (f: array<i16>)
    requires IsEta(eta) && |bytes| == 64 * eta
    ensures fresh(f) && f[..] == SamplePolyCbd(eta, bytes)
  {
    if eta == 2 {
      f := SampleCbdEta2(bytes);
    } else {
      f := SampleCbdEta3(bytes);
    }
  }
}
