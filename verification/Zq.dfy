/** The prime field Z/q, q = 3329, on canonical representatives: what the
    machine representatives of the program stand for. */
module Zq {

  const Q: int := 3329

  type Zq = x: int | 0 <= x < 3329

  /** The residue class of an integer. */
  function Residue(x: int): Zq {
    x % Q
  }

  function Plus(a: Zq, b: Zq): Zq {
    Residue(a + b)
  }

  function Minus(a: Zq, b: Zq): Zq {
    Residue(a - b)
  }

  function Times(a: Zq, b: Zq): Zq {
    Residue(a * b)
  }

  /** Congruent integers have one residue. */
  lemma ResidueShift(x: int, y: int, k: int)
    requires x == y + Q * k
    ensures Residue(x) == Residue(y)
  {
  }

  /** A canonical representative is its own residue. */
  lemma ResidueOfZq(a: Zq)
    ensures Residue(a) == a
  {
  }

  lemma ResiduePlus(x: int, y: int)
    ensures Residue(x + y) == Plus(Residue(x), Residue(y))
  {
  }

  lemma ResidueMinus(x: int, y: int)
    ensures Residue(x - y) == Minus(Residue(x), Residue(y))
  {
  }

  /** Reduction mod q is multiplicative. */
  lemma ResidueTimes(x: int, y: int)
    ensures Residue(x * y) == Times(Residue(x), Residue(y))
  {
    var s, t := x / Q, y / Q;
    var a, b := x % Q, y % Q;
    assert x == a + Q * s && y == b + Q * t;
    assert x * y == a * b + Q * (s * b + a * t + Q * (s * t)) by {
      assert x * y == (a + Q * s) * (b + Q * t);
      assert (a + Q * s) * (b + Q * t) == a * b + (Q * s) * b + a * (Q * t) + (Q * s) * (Q * t);
    }
    ResidueShift(x * y, a * b, s * b + a * t + Q * (s * t));
  }

  lemma TimesCommutes(a: Zq, b: Zq)
    ensures Times(a, b) == Times(b, a)
  {
  }

  lemma TimesAssociates(a: Zq, b: Zq, c: Zq)
    ensures Times(Times(a, b), c) == Times(a, Times(b, c))
  {
    hide Residue;
    ResidueOfZq(a);
    ResidueOfZq(c);
    ResidueTimes(a * b, c);
    ResidueTimes(a, b * c);
    assert (a * b) * c == a * (b * c);
  }

  lemma TimesDistributes(a: Zq, b: Zq, c: Zq)
    ensures Times(a, Plus(b, c)) == Plus(Times(a, b), Times(a, c))
    ensures Times(a, Minus(b, c)) == Minus(Times(a, b), Times(a, c))
  {
    hide Residue;
    ResidueOfZq(a);
    ResidueTimes(a, b + c);
    ResidueTimes(a, b - c);
    assert a * (b + c) == a * b + a * c;
    assert a * (b - c) == a * b - a * c;
    ResiduePlus(a * b, a * c);
    ResidueMinus(a * b, a * c);
  }
}
