/** Machine words as bounded integers, with every wrap-around written out.
    A wrapping operation is its exact integer result pushed through `Wrap16` or
    `Wrap32`; "nothing wraps" is then a statement to prove, not a typing rule. */
module Words {

  type i16 = x: int | -0x8000 <= x < 0x8000
  type i32 = x: int | -0x8000_0000 <= x < 0x8000_0000
  type byte = x: int | 0 <= x < 0x100

  /** The coefficients of a ring element. */
  type RqWords = c: seq<i16> | |c| == 256 witness seq(256, i => 0)

  /** The two vector instruction sets. */
  datatype Simd = Avx2 | Neon

  /** The backends a build selects from; `pipelined` gives NEON's transform its
      software-pipelined head. */
  datatype Backend = Generic | Vector(simd: Simd, pipelined: bool)

  /** The signed 16-bit word congruent to `x` mod 2^16. */
  function Wrap16(x: int): (r: i16)
    ensures (x - r) % 0x1_0000 == 0
    ensures -0x8000 <= x < 0x8000 ==> r == x
  {
    (x + 0x8000) % 0x1_0000 - 0x8000
  }

  /** The signed 32-bit word congruent to `x` mod 2^32. */
  function Wrap32(x: int): (r: i32)
    ensures (x - r) % 0x1_0000_0000 == 0
    ensures -0x8000_0000 <= x < 0x8000_0000 ==> r == x
  {
    (x + 0x8000_0000) % 0x1_0000_0000 - 0x8000_0000
  }

  /** A wrapped word is pinned by its residue: any in-range `y` congruent to `x` is it. */
  lemma Wrap16Unique(x: int, y: int)
    requires -0x8000 <= y < 0x8000 && (x - y) % 0x1_0000 == 0
    ensures Wrap16(x) == y
  {
    var k := (x - y) / 0x1_0000;
    assert x + 0x8000 == (y + 0x8000) + 0x1_0000 * k;
  }

  function Abs(x: int): nat {
    if x < 0 then -x else x
  }

  /** Products are monotone in a factor. */
  lemma ProductMonotone(x: int, y: int, z: nat)
    requires x <= y
    ensures x * z <= y * z
  {
    assert y * z == x * z + (y - x) * z;
  }

  lemma AbsOfProduct(a: int, b: int)
    ensures Abs(a * b) == Abs(a) * Abs(b)
  {
    var p := a * b;
    if a < 0 {
      assert (-a) * b == -p;
    }
    if b < 0 {
      assert Abs(a) * (-b) == -(Abs(a) * b);
    }
  }

  /** |a * b| is at most the product of the two magnitudes' bounds. */
  lemma ProductBound(a: int, b: int, A: nat, B: nat)
    requires Abs(a) <= A && Abs(b) <= B
    ensures Abs(a * b) <= A * B
  {
    AbsOfProduct(a, b);
    hide Abs;
    ProductMonotone(Abs(a), A, Abs(b));
    ProductMonotone(Abs(b), B, A);
  }

  lemma Distributes(a: int, b: int, c: int)
    ensures (a + b) * c == a * c + b * c && (a - b) * c == a * c - b * c
  {
  }

  lemma Doubled(a: int, b: int)
    ensures a * (2 * b) == 2 * (a * b) && (2 * a) * b == 2 * (a * b)
  {
  }
}
