/** The signed-Montgomery field element of `src/algebraic/field.rs`: an `i16`
    that stands for a residue class mod q and need not be canonical.

    Every operation below is total, wraps where the program wraps, and promises
    two things: which residue class its result stands for, and how far from zero
    the chosen representative can be. */
module Field {
  import opened Words
  import opened Zq

  /** q^-1 mod 2^16, signed. */
  const QINV: int := -3327

  /** Barrett multiplier for reduction by q: round(2^26 / q). */
  const BARRETT_V: int := 20159

  /** R^2 mod q, R = 2^16. */
  const MONT_R_SQUARED: i16 := 1353

  /** ceil(2^33 / q), the multiplier for exact division by q. */
  const BARRETT_DIV_Q: int := 2_580_335

  /** 2^-16 mod q: the factor Montgomery reduction leaves behind. */
  const R_INVERSE: Zq := 169

  /** 2^16 mod q. */
  const R: Zq := 2285

  lemma MontgomeryConstants()
    ensures Times(R, R_INVERSE) == 1
    ensures Times(Residue(MONT_R_SQUARED), R_INVERSE) == R
    ensures BARRETT_V == (0x400_0000 + Q / 2) / Q
    ensures (Q * QINV) % 0x1_0000 == 1
    ensures Residue(0x1_0000) == R
  {
  }

  /** Wrapping addition. */
  function Add(a: i16, b: i16): (r: i16)
    ensures -0x8000 <= a + b < 0x8000 ==> r == a + b && Residue(r) == Plus(Residue(a), Residue(b))
  {
    ResiduePlus(a, b);
    Wrap16(a + b)
  }

  /** Wrapping subtraction. */
  function Sub(a: i16, b: i16): (r: i16)
    ensures -0x8000 <= a - b < 0x8000 ==> r == a - b && Residue(r) == Minus(Residue(a), Residue(b))
  {
    ResidueMinus(a, b);
    Wrap16(a - b)
  }

  /** The Barrett quotient leaves a remainder in (-q/2, q/2], whatever the word. */
  lemma BarrettRemainder(a: i16, t: int)
    requires t == (BARRETT_V * a + 0x200_0000) / 0x400_0000
    ensures -1664 <= a - t * Q <= 1664
    ensures -0x8000 <= t < 0x8000
  {
    var r := (BARRETT_V * a + 0x200_0000) % 0x400_0000;
    assert 0x400_0000 * t == BARRETT_V * a + 0x200_0000 - r;
    assert 0x400_0000 * (a - t * Q) == Q * r - 447 * a - Q * 0x200_0000;
  }

  /** A difference of wrapped words is exact when the true difference fits. */
  lemma SubtractMultiple(x: int, t: int, y: int)
    requires y == x - t * Q && -0x8000 <= y < 0x8000
    ensures Wrap16(x - Wrap16(t * Q)) == y
    ensures Wrap16(Wrap16(x) - Wrap16(t * Q)) == y
  {
    hide Wrap16;
    var w, v: int := Wrap16(t * Q), Wrap16(x);
    assert x - w - y == t * Q - w;
    MultiplesSubtract(t * Q - w, x - v);
    Wrap16Unique(x - w, y);
    Wrap16Unique(v - w, y);
  }

  lemma MultiplesSubtract(a: int, b: int)
    requires a % 0x1_0000 == 0 && b % 0x1_0000 == 0
    ensures (a - b) % 0x1_0000 == 0
  {
  }

  /** The centered representative, for every 16-bit input. */
  function Barrett(a: i16): (r: i16)
    ensures -1664 <= r <= 1664
    ensures Residue(r) == Residue(a)
  {
    var t := Wrap16((BARRETT_V * a + 0x200_0000) / 0x400_0000);
    BarrettRemainder(a, (BARRETT_V * a + 0x200_0000) / 0x400_0000);
    SubtractMultiple(a, t, a - t * Q);
    ResidueShift(a - t * Q, a, -t);
    Wrap16(a - Wrap16(t * Q))
  }

  /** The canonical representative: Barrett, then q added to a negative result. */
  function Value(a: i16): (r: int)
    ensures r == Residue(a)
  {
    var r := Barrett(a);
    ResidueShift(r + Q, r, 1);
    if r < 0 then r + Q else r
  }

  /** floor(n / q) by multiply and shift. */
  function DivideByQ(n: int): (r: int)
    requires 0 <= n <= 4096 * (Q - 1) + Q / 2
    ensures r == n / Q
  {
    var k, s := n / Q, n % Q;
    assert n * BARRETT_DIV_Q == k * 0x2_0000_0000 + (623 * k + s * BARRETT_DIV_Q);
    (n * BARRETT_DIV_Q) / 0x2_0000_0000
  }

  /** The canonical element of a `u16`. */
  function New(value: int): (r: i16)
    requires 0 <= value < 0x1_0000
    ensures r == Residue(value)
  {
    Wrap16(value - DivideByQ(value) * Q)
  }

  lemma MontgomeryFactorDivides(a: int, low: int, m: int)
    requires (a - low) % 0x1_0000 == 0 && (low * QINV - m) % 0x1_0000 == 0
    ensures (a - m * Q) % 0x1_0000 == 0
  {
    var s, t := (a - low) / 0x1_0000, (low * QINV - m) / 0x1_0000;
    assert a - m * Q == 0x1_0000 * (s + Q * t + 169 * low);
  }

  /** The multiple of q that Montgomery reduction subtracts. */
  function MontgomeryFactor(a: i32): (m: i16)
    ensures (a - m * Q) % 0x1_0000 == 0
  {
    var low := Wrap16(a);
    MontgomeryFactorDivides(a, low, Wrap16(low * QINV));
    Wrap16(low * QINV)
  }

  /** The subtraction inside Montgomery reduction stays in 32 bits. */
  predicate MontgomeryFits(a: i32) {
    -0x8000_0000 <= a - MontgomeryFactor(a) * Q < 0x8000_0000
  }

  /** a * R^-1 from a 32-bit value. The subtraction wraps, as a release build's does. */
  function MontgomeryReduce(a: i32): (r: i16)
    ensures MontgomeryFits(a) ==> Residue(r) == Times(Residue(a), R_INVERSE)
    ensures MontgomeryFits(a) ==> 0x1_0000 * Abs(r) <= Abs(a) + 0x8000 * Q
  {
    var m := MontgomeryFactor(a);
    var d := Wrap32(a - m * Q);
    assert MontgomeryFits(a) ==> Residue(d / 0x1_0000) == Times(Residue(a), R_INVERSE) by {
      if MontgomeryFits(a) {
        MontgomeryDivides(a, m, d / 0x1_0000);
      }
    }
    Wrap16(d / 0x1_0000)
  }

  lemma MontgomeryDivides(a: int, m: int, r: int)
    requires 0x1_0000 * r == a - m * Q
    ensures Residue(r) == Times(Residue(a), R_INVERSE)
  {
    ResidueTimes(a, R_INVERSE);
    ResidueShift(r, a * R_INVERSE, 0 - R_INVERSE * m - 3327 * r);
  }

  /** Every input the program's sums can reach is safe. */
  lemma MontgomeryFitsBound(a: i32)
    requires Abs(a) <= 0x8000_0000 - 0x8000 * Q - 1
    ensures MontgomeryFits(a)
  {
  }

  /** Montgomery reduction is exact mod q for precisely the 32-bit inputs whose
      subtraction does not overflow. */
  lemma MontgomeryExactIff(a: i32)
    ensures Residue(MontgomeryReduce(a)) == Times(Residue(a), R_INVERSE) <==> MontgomeryFits(a)
  {
    hide MontgomeryFactor;
    hide Wrap16;
    if !MontgomeryFits(a) {
      var m := MontgomeryFactor(a);
      var d := Wrap32(a - m * Q);
      MontgomeryOverflow(a, m, d, d / 0x1_0000);
    }
  }

  /** The reduction is not exact for every 32-bit input: near either end it is not. */
  lemma MontgomeryInexactNearTheEnds()
    ensures !MontgomeryFits(2147483638) && Residue(MontgomeryReduce(2147483638)) != Times(Residue(2147483638), R_INVERSE)
    ensures !MontgomeryFits(-2147483638) && Residue(MontgomeryReduce(-2147483638)) != Times(Residue(-2147483638), R_INVERSE)
  {
    hide MontgomeryReduce, MontgomeryFits;
    FactorIs(2147483638, -10, -32266);
    FactorIs(-2147483638, 10, 32266);
    InexactAt(2147483638, -32266);
    InexactAt(-2147483638, 32266);
  }

  lemma InexactAt(a: i32, m: i16)
    requires MontgomeryFactor(a) == m && !(-0x8000_0000 <= a - m * Q < 0x8000_0000)
    ensures !MontgomeryFits(a) && Residue(MontgomeryReduce(a)) != Times(Residue(a), R_INVERSE)
  {
    hide MontgomeryReduce, MontgomeryFactor, Residue, Times;
    MontgomeryExactIff(a);
  }

  lemma FactorIs(a: i32, low: i16, m: i16)
    requires (a - low) % 0x1_0000 == 0 && (low * QINV - m) % 0x1_0000 == 0
    ensures MontgomeryFactor(a) == m
  {
    hide Wrap16;
    Wrap16Unique(a, low);
    Wrap16Unique(low * QINV, m);
  }

  /** One overflow of the subtraction moves the result off by 2^16, which is not 0 mod q. */
  lemma MontgomeryOverflow(a: i32, m: i16, d: i32, r: int)
    requires (a - m * Q) % 0x1_0000 == 0 && r == d / 0x1_0000
    requires (a - m * Q - d) % 0x1_0000_0000 == 0 && a - m * Q != d
    ensures Residue(r) != Times(Residue(a), R_INVERSE)
  {
    var k := (a - m * Q - d) / 0x1_0000_0000;
    assert k == 1 || k == -1;
    MontgomeryDivides(a, m, r + k * 0x1_0000);
    hide Times;
    OffByR(r, k);
  }

  lemma OffByR(r: int, k: int)
    requires k == 1 || k == -1
    ensures Residue(r) != Residue(r + k * 0x1_0000)
  {
  }

  /** Montgomery multiplication: a * b * R^-1. */
  function Mul(a: i16, b: i16): (r: i16)
    ensures Residue(r) == Times(Times(Residue(a), Residue(b)), R_INVERSE)
    ensures 0x1_0000 * Abs(r) <= Abs(a * b) + 0x8000 * Q
  {
    WideningMulBound(a, b);
    MontgomeryFitsBound(a * b);
    ResidueTimes(a, b);
    MontgomeryReduce(a * b)
  }

  /** The exact product of two representatives. */
  function WideningMul(a: i16, b: i16): int {
    (a as int) * (b as int)
  }

  lemma WideningMulBound(a: i16, b: i16)
    ensures Abs(a * b) <= 0x4000_0000
  {
    ProductBound(a, b, 0x8000, 0x8000);
  }

  /** Scales by R. */
  function ToMontgomery(a: i16): (r: i16)
    ensures Residue(r) == Times(Residue(a), R)
    ensures 0x1_0000 * Abs(r) <= MONT_R_SQUARED * Abs(a) + 0x8000 * Q
  {
    MontgomeryConstants();
    TimesAssociates(Residue(a), Residue(MONT_R_SQUARED), R_INVERSE);
    assert Abs(a * MONT_R_SQUARED) == MONT_R_SQUARED * Abs(a);
    Mul(a, MONT_R_SQUARED)
  }

  /** `bBar` is the 15-bit Barrett multiplier of `b`: the integer nearest b * 2^15 / q. */
  predicate IsBarrettMultiplier(b: int, bBar: int) {
    0 <= b < Q && 0 <= bBar < 0x8000 && 2 * Abs(b * 0x8000 - bBar * Q) <= Q
  }

  /** Multiplication by a canonical constant, standard domain: no R factor appears. */
  function BarrettConstMul(a: i16, b: i16, bBar: i16): (r: i16)
    requires IsBarrettMultiplier(b, bBar)
    ensures Residue(r) == Times(Residue(a), Residue(b))
    ensures Abs(r) < Q
  {
    BarrettConstRemainder(a, b, bBar);
    var t := Wrap16((a * bBar + 0x4000) / 0x8000);
    ExactRemainder(a * b, t);
    ResidueTimes(a, b);
    Wrap16(Wrap16(a * b) - Wrap16(t * Q))
  }

  lemma ExactRemainder(x: int, t: i16)
    requires Abs(x - t * Q) < Q
    ensures var r := Wrap16(Wrap16(x) - Wrap16(t * Q)); Abs(r) < Q && Residue(r) == Residue(x)
  {
    SubtractMultiple(x, t, x - t * Q);
    ResidueShift(x - t * Q, x, 0 - t);
  }

  lemma BarrettConstRemainder(a: i16, b: i16, bBar: i16)
    requires IsBarrettMultiplier(b, bBar)
    ensures var t := (a * bBar + 0x4000) / 0x8000; -0x8000 <= t < 0x8000 && Abs(a * b - t * Q) < Q
  {
    var e := b * 0x8000 - bBar * Q;
    var t := (a * bBar + 0x4000) / 0x8000;
    var s := (a * bBar + 0x4000) % 0x8000 - 0x4000;
    assert a * e == (a * b) * 0x8000 - (a * bBar) * Q;
    assert 0x8000 * t == a * bBar - s;
    assert 0x8000 * (a * b - t * Q) == a * e + Q * s;
    ProductBound(a, e, 0x8000, 1664);
    ProductBound(a, bBar, 0x8000, 0x7FFF);
  }

  /** `Compress_d`: round((2^d / q) * x) mod 2^d, with `scale` = 2^d. */
  function Compress(a: i16, scale: nat): (r: nat)
    requires 1 < scale <= 0x1000
    ensures r == ((scale * Residue(a) + Q / 2) / Q) % scale
    ensures r < scale
  {
    var x := Value(a);
    assert 0 <= scale * x <= 0x1000 * (Q - 1) by {
      ProductBound(scale, x, 0x1000, Q - 1);
    }
    DivideByQ(scale * x + Q / 2) % scale
  }

  /** `Decompress_d`: round((q / 2^d) * y), with `scale` = 2^d. */
  function Decompress(y: nat, scale: nat): (r: i16)
    requires y < scale && 1 < scale <= 0x1000 && scale % 2 == 0
    ensures r == (Q * y + scale / 2) / scale
    ensures 0 <= r < Q
  {
    DecompressInRange(y, scale);
    New((Q * y + scale / 2) / scale)
  }

  lemma DecompressInRange(y: nat, scale: nat)
    requires y < scale && 1 < scale <= 0x1000
    ensures 0 <= (Q * y + scale / 2) / scale < Q
  {
    QuotientBelow(Q * y + scale / 2, Q, scale);
  }

  lemma QuotientBelow(n: nat, q: nat, scale: nat)
    requires scale > 0 && n < q * scale
    ensures 0 <= n / scale < q
  {
    DividesBack(n, n / scale, n % scale, q, scale);
  }

  lemma DividesBack(n: nat, k: int, r: nat, q: nat, scale: nat)
    requires n == scale * k + r && r < scale && n < q * scale
    ensures 0 <= k < q
  {
    if k >= q {
      ProductMonotone(q, k, scale);
    } else if k < 0 {
      ProductMonotone(k, -1, scale);
    }
  }
}
