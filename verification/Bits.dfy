/** Natural numbers as bit strings: bitwise operators, little-endian digit strings
    in base 2^d, and how the two fit together. */
module Bits {

  function Pow2(k: nat): (p: nat)
    ensures p > 0
  {
    if k == 0 then 1 else 2 * Pow2(k - 1)
  }

  lemma {:induction false} Pow2Adds(a: nat, b: nat)
    ensures Pow2(a + b) == Pow2(a) * Pow2(b)
  {
    if a > 0 {
      Pow2Adds(a - 1, b);
      assert Pow2(a + b) == 2 * (Pow2(a - 1) * Pow2(b));
    }
  }

  /** Bit `k` of `n`. */
  function Bit(n: nat, k: nat): nat {
    n / Pow2(k) % 2
  }

  function Or(a: nat, b: nat): nat {
    if a == 0 && b == 0 then 0
    else (if a % 2 == 1 || b % 2 == 1 then 1 else 0) + 2 * Or(a / 2, b / 2)
  }

  function And(a: nat, b: nat): nat {
    if a == 0 || b == 0 then 0
    else (if a % 2 == 1 && b % 2 == 1 then 1 else 0) + 2 * And(a / 2, b / 2)
  }

  function Xor(a: nat, b: nat): (x: nat)
    ensures x == 0 <==> a == b
  {
    if a == 0 && b == 0 then 0
    else (if a % 2 != b % 2 then 1 else 0) + 2 * Xor(a / 2, b / 2)
  }

  lemma {:induction false} OrZero(a: nat, b: nat)
    ensures Or(a, b) == 0 <==> a == 0 && b == 0
  {
    if a != 0 || b != 0 {
      OrZero(a / 2, b / 2);
    }
  }

  lemma {:induction false} OrWithZero(b: nat)
    ensures Or(0, b) == b
  {
    if b > 0 {
      OrWithZero(b / 2);
    }
  }

  /** OR of a value below 2^k with a value shifted past it is their sum. */
  lemma {:induction false} OrDisjoint(a: nat, b: nat, k: nat)
    requires a < Pow2(k)
    ensures Or(a, b * Pow2(k)) == a + b * Pow2(k)
    decreases k
  {
    if k == 0 {
      OrWithZero(b);
    } else {
      var s := b * Pow2(k - 1);
      assert b * Pow2(k) == 2 * s by {
        assert b * (2 * Pow2(k - 1)) == 2 * (b * Pow2(k - 1));
      }
      OrDisjoint(a / 2, b, k - 1);
      if a == 0 && s == 0 {
      } else {
        assert (2 * s) / 2 == s && (2 * s) % 2 == 0;
      }
    }
  }

  lemma AndStep(a: nat, m: nat)
    ensures And(a, 2 * m + 1) == a % 2 + 2 * And(a / 2, m)
  {
    assert (2 * m + 1) / 2 == m && (2 * m + 1) % 2 == 1;
  }

  /** AND with 2^k - 1 keeps the low k bits. */
  lemma {:induction false} AndMask(a: nat, k: nat)
    ensures And(a, Pow2(k) - 1) == a % Pow2(k)
    decreases k
  {
    if k > 0 {
      var p := Pow2(k - 1);
      assert Pow2(k) - 1 == 2 * (p - 1) + 1;
      AndMask(a / 2, k - 1);
      hide *;
      AndStep(a, p - 1);
      HalfModulo(a, p);
    }
  }

  lemma HalfModulo(a: nat, p: nat)
    requires p > 0
    ensures a % (2 * p) == a % 2 + 2 * (a / 2 % p)
  {
    var s, t := a / 2 / p, a / 2 % p;
    assert a == a % 2 + 2 * (p * s + t);
    assert a == (2 * p) * s + (a % 2 + 2 * t) by {
      assert 2 * (p * s) == (2 * p) * s;
    }
    DivModUnique(a, 2 * p, s, a % 2 + 2 * t);
  }

  lemma DivModUnique(a: int, d: nat, k: int, r: int)
    requires a == d * k + r && 0 <= r < d
    ensures a / d == k && a % d == r
  {
    var e := a / d - k;
    assert a == d * (a / d) + a % d;
    assert d * e == r - a % d by {
      assert d * e == d * (a / d) - d * k;
    }
    SmallMultiple(d, e);
  }

  lemma SmallMultiple(d: nat, e: int)
    requires 0 - d < d * e < d
    ensures e == 0
  {
  }

  lemma QuotientIsNat(x: nat, p: nat)
    requires p > 0
    ensures x / p >= 0 && 0 <= x % p < p
  {
  }

  lemma {:induction false} Pow2Monotone(a: nat, b: nat)
    requires a <= b
    ensures Pow2(a) <= Pow2(b)
  {
    if a < b {
      Pow2Monotone(a, b - 1);
    }
  }

  lemma TwoToEight()
    ensures Pow2(8) == 256
  {
  }

  lemma TwoToSixteen()
    ensures Pow2(16) == 0x1_0000
  {
    hide Pow2;
    TwoToEight();
    Pow2Adds(8, 8);
  }

  lemma TwoTo32()
    ensures Pow2(32) == 0x1_0000_0000
  {
    hide Pow2;
    TwoToSixteen();
    Pow2Adds(16, 16);
  }

  // ---- digit strings ----

  /** The number whose base-2^d digits are `vs`, least significant first. */
  function Value(vs: seq<nat>, d: nat): nat {
    if |vs| == 0 then 0 else vs[0] + Pow2(d) * Value(vs[1..], d)
  }

  predicate Digits(vs: seq<nat>, d: nat) {
    forall i | 0 <= i < |vs| :: vs[i] < Pow2(d)
  }

  /** The low `n` base-2^d digits of a number. */
  function DigitsOf(x: nat, d: nat, n: nat): (vs: seq<nat>)
    ensures |vs| == n && Digits(vs, d)
    decreases n
  {
    if n == 0 then []
    else
      QuotientIsNat(x, Pow2(d));
      [x % Pow2(d)] + DigitsOf(x / Pow2(d), d, n - 1)
  }

  lemma Distribute(p: nat, a: nat, q: nat, v: nat)
    ensures p * (a + q * v) == p * a + (p * q) * v
  {
    assert p * (a + q * v) == p * a + p * (q * v);
    assert p * (q * v) == (p * q) * v;
  }

  lemma Multiples(d: nat, n: nat, j: nat)
    requires n > 0
    ensures d * n == d + d * (n - 1) && n * d + j == d + ((n - 1) * d + j)
  {
  }

  lemma {:induction false} ValueConcat(a: seq<nat>, b: seq<nat>, d: nat)
    ensures Value(a + b, d) == Value(a, d) + Pow2(d * |a|) * Value(b, d)
    decreases |a|
  {
    if |a| == 0 {
      assert a + b == b;
    } else {
      ValueConcat(a[1..], b, d);
      assert (a + b)[1..] == a[1..] + b;
      assert Value(a + b, d) == a[0] + Pow2(d) * Value(a[1..] + b, d);
      assert Value(a, d) == a[0] + Pow2(d) * Value(a[1..], d);
      hide Value, Pow2;
      var n := |a| - 1;
      Multiples(d, |a|, 0);
      Pow2Adds(d, d * n);
      Distribute(Pow2(d), Value(a[1..], d), Pow2(d * n), Value(b, d));
    }
  }

  lemma TopDigit(v: nat, rest: nat, p: nat, q: nat)
    requires v < p && rest < q
    ensures v + p * rest < p * q
  {
    assert p * rest <= p * (q - 1);
  }

  lemma {:induction false} ValueBound(vs: seq<nat>, d: nat)
    requires Digits(vs, d)
    ensures Value(vs, d) < Pow2(d * |vs|)
    decreases |vs|
  {
    if |vs| > 0 {
      assert Digits(vs[1..], d);
      ValueBound(vs[1..], d);
      var p, q := Pow2(d), Pow2(d * (|vs| - 1));
      assert Pow2(d * |vs|) == p * q by {
        assert d * |vs| == d + d * (|vs| - 1);
        Pow2Adds(d, d * (|vs| - 1));
      }
      TopDigit(vs[0], Value(vs[1..], d), p, q);
    }
  }

  /** Reading the digits back. */
  lemma {:induction false} DigitsOfValue(vs: seq<nat>, d: nat)
    requires Digits(vs, d)
    ensures DigitsOf(Value(vs, d), d, |vs|) == vs
    decreases |vs|
  {
    if |vs| > 0 {
      assert Digits(vs[1..], d);
      DigitsOfValue(vs[1..], d);
      DivModUnique(Value(vs, d), Pow2(d), Value(vs[1..], d), vs[0]);
    }
  }

  /** Writing the digits out: the number is kept modulo 2^(d * n). */
  lemma {:induction false} ValueOfDigits(x: nat, d: nat, n: nat)
    ensures Value(DigitsOf(x, d, n), d) == x % Pow2(d * n)
    decreases n
  {
    if n == 0 {
      NoDigits(x, d);
    } else {
      hide Value, DigitsOf, Pow2;
      var p, e := Pow2(d), d * (n - 1);
      QuotientIsNat(x, p);
      ValueOfDigits(x / p, d, n - 1);
      FirstDigit(x, d, n, p);
      assert d * n == d + e;
      Pow2Adds(d, e);
      ModOfProduct(x, p, Pow2(e));
    }
  }

  lemma NoDigits(x: nat, d: nat)
    ensures Value(DigitsOf(x, d, 0), d) == x % Pow2(d * 0) == 0
  {
    assert Pow2(0) == 1;
  }

  lemma FirstDigit(x: nat, d: nat, n: nat, p: nat)
    requires n > 0 && p == Pow2(d)
    ensures x / p >= 0 && Value(DigitsOf(x, d, n), d) == x % p + p * Value(DigitsOf(x / p, d, n - 1), d)
  {
    QuotientIsNat(x, p);
    assert DigitsOf(x, d, n)[1..] == DigitsOf(x / p, d, n - 1);
  }

  lemma ModOfProduct(x: nat, p: nat, q: nat)
    requires p > 0 && q > 0
    ensures p * q > 0 && x % (p * q) == x % p + p * (x / p % q)
    ensures x / (p * q) == x / p / q
  {
    var s, t := x / p / q, x / p % q;
    assert x == p * (q * s + t) + x % p;
    assert p * (q * s + t) == (p * q) * s + p * t;
    assert p * t <= p * (q - 1);
    DivModUnique(x, p * q, s, x % p + p * t);
  }

  /** Digits beyond the `n`th do not matter. */
  lemma {:induction false} DigitsOfModulo(x: nat, y: nat, d: nat, n: nat)
    requires x % Pow2(d * n) == y % Pow2(d * n)
    ensures DigitsOf(x, d, n) == DigitsOf(y, d, n)
    decreases n
  {
    DigitsOfValue(DigitsOf(x, d, n), d);
    DigitsOfValue(DigitsOf(y, d, n), d);
    ValueOfDigits(x, d, n);
    ValueOfDigits(y, d, n);
  }

  lemma ValueStep(vs: seq<nat>, d: nat)
    requires |vs| > 0 && Digits(vs, d)
    ensures Value(vs, d) == vs[0] + Pow2(d) * Value(vs[1..], d) && Digits(vs[1..], d)
    ensures Value(vs, d) / Pow2(d) == Value(vs[1..], d) && Value(vs, d) % Pow2(d) == vs[0]
  {
    DivModUnique(Value(vs, d), Pow2(d), Value(vs[1..], d), vs[0]);
  }

  /** Bit `j` of digit `i` is global bit `i * d + j`. */
  lemma {:induction false} BitOfValue(vs: seq<nat>, d: nat, i: nat, j: nat)
    requires Digits(vs, d) && i < |vs| && j < d
    ensures Bit(Value(vs, d), i * d + j) == Bit(vs[i], j)
    decreases i
  {
    ValueStep(vs, d);
    hide Value, Pow2, Digits;
    var rest := Value(vs[1..], d);
    if i == 0 {
      var p, h := Pow2(j), Pow2(d - j - 1);
      assert Pow2(d) == p * (2 * h) by {
        Pow2Adds(j, d - j);
        Doubles(d - j);
      }
      DoubleRegroup(p, h, rest);
      EvenShift(vs[0], p, h * rest);
    } else {
      BitOfValue(vs[1..], d, i - 1, j);
      var k := (i - 1) * d + j;
      Multiples(d, i, j);
      Pow2Adds(d, k);
      ModOfProduct(Value(vs, d), Pow2(d), Pow2(k));
    }
  }

  lemma DoubleRegroup(p: nat, h: nat, rest: nat)
    ensures (p * (2 * h)) * rest == p * (2 * (h * rest))
  {
  }

  lemma Doubles(k: nat)
    requires k > 0
    ensures Pow2(k) == 2 * Pow2(k - 1)
  {
  }

  lemma EvenShift(v: nat, p: nat, s: nat)
    requires p > 0
    ensures (v + p * (2 * s)) / p % 2 == v / p % 2
  {
    var q, r := v / p, v % p;
    assert v + p * (2 * s) == p * (q + 2 * s) + r;
    DivModUnique(v + p * (2 * s), p, q + 2 * s, r);
  }

  /** Shifting down to a digit and masking reads it. */
  lemma {:induction false} DigitOfValue(vs: seq<nat>, d: nat, i: nat)
    requires Digits(vs, d) && i < |vs|
    ensures Value(vs, d) / Pow2(d * i) % Pow2(d) == vs[i]
    decreases i
  {
    ValueStep(vs, d);
    hide Value, Pow2, Digits;
    if i > 0 {
      DigitOfValue(vs[1..], d, i - 1);
      assert d * i == d + d * (i - 1);
      Pow2Adds(d, d * (i - 1));
      ModOfProduct(Value(vs, d), Pow2(d), Pow2(d * (i - 1)));
    }
  }
}
