/** The gather-and-shift packers (`src/encoding/arch/avx2.rs`,
    `src/encoding/arch/neon.rs`): every output byte draws from at most two values, and
    each group of eight values is written by two overlapping 8-byte stores. */
module SimdPacking {
  import opened Words
  import opened Bits
  import opened Packing
  import opened VectorReject
  import opened SimdUnpacking

  /** The widths packed by gathering. */
  predicate PacksGathered(d: nat) {
    d == 10 || d == 11 || d == 12
  }

  /** The value byte `j` of a group starts in, and the bit it starts at. */
  function ValueIndex(d: nat, j: nat): (i: nat)
    requires PacksGathered(d)
  {
    8 * j / d
  }

  function BitOffset(d: nat, j: nat): (s: nat)
    requires PacksGathered(d)
    ensures s < d && 8 * j == d * ValueIndex(d, j) + s
  {
    if d == 10 then 8 * j - 10 * (8 * j / 10)
    else if d == 11 then 8 * j - 11 * (8 * j / 11)
    else 8 * j - 12 * (8 * j / 12)
  }

  lemma IndexInGroup(d: nat, j: nat)
    requires PacksGathered(d) && j < d
    ensures ValueIndex(d, j) < 8 && (ValueIndex(d, j) == 7 ==> BitOffset(d, j) + 8 <= d)
  {
    if d == 10 {
    } else if d == 11 {
    } else {
    }
  }

  lemma GatheredHalves(simd: Simd, chunk: Lanes, i: nat)
    requires i <= 8
    ensures i < 8 ==> ShuffleByte(simd, BytesOfLanes(chunk), 2 * i) == LaneByte(chunk[i], 0)
    ensures i < 8 ==> ShuffleByte(simd, BytesOfLanes(chunk), 2 * i + 1) == LaneByte(chunk[i], 1)
    ensures ShuffleByte(simd, BytesOfLanes(chunk), 0xFF) == 0
  {
    EvenAndOdd(i);
  }

  /** A lane gathered by two control bytes; `0xFF` reads as zero. */
  function GatheredValue(simd: Simd, chunk: Lanes, i: nat): (v: nat)
    requires i <= 8
    ensures v == if i < 8 then chunk[i] else 0
  {
    var data := BytesOfLanes(chunk);
    var control: nat := if i < 8 then 2 * i else 0xFF;
    var low, high := ShuffleByte(simd, data, control), ShuffleByte(simd, data, if i < 8 then control + 1 else 0xFF);
    GatheredHalves(simd, chunk, i);
    PairOf(low, high)
  }

  /** Output byte `j` of a group: the low byte of (v[i] >> s) | (v[i + 1] << (d - s)). NEON
      shifts in 16-bit lanes and narrows, AVX2 shifts in 32-bit lanes and masks. */
  function PackedByte(simd: Simd, d: nat, chunk: Lanes, j: nat): byte
    requires PacksGathered(d) && j < d
  {
    IndexInGroup(d, j);
    ShiftedByte(simd, d, chunk, ValueIndex(d, j), BitOffset(d, j))
  }

  function ShiftedByte(simd: Simd, d: nat, chunk: Lanes, i: nat, s: nat): byte
    requires i < 8 && s < d
  {
    hide Pow2, GatheredValue;
    var value := GatheredValue(simd, chunk, i);
    var next := GatheredValue(simd, chunk, i + 1);
    QuotientIsNat(value, Pow2(s));
    ByteOf(simd, value / Pow2(s), next * Pow2(d - s))
  }

  function ByteOf(simd: Simd, low: nat, high: nat): byte {
    assert Pow2(8) == 256;
    AndMask(Or(low, high), 8);
    if simd.Avx2? then And(Or(low, high), 0xFF) else Or(low, high % 0x1_0000) % 256
  }

  /** Dropping the first `i` values. */
  lemma DropValues(vs: seq<nat>, d: nat, i: nat)
    requires Digits(vs, d) && i <= |vs|
    ensures Value(vs, d) / Pow2(d * i) == Value(vs[i..], d)
  {
    hide Value, Pow2;
    assert vs == vs[..i] + vs[i..] && Digits(vs[..i], d);
    ValueConcat(vs[..i], vs[i..], d);
    ValueBound(vs[..i], d);
    DivModUnique(Value(vs, d), Pow2(d * i), Value(vs[i..], d), Value(vs[..i], d));
  }

  /** The first two values of a number and the rest. */
  lemma TwoValues(vs: seq<nat>, d: nat)
    requires |vs| > 0
    ensures Value(vs, d) == vs[0] + Pow2(d) * (if |vs| > 1 then vs[1] + Pow2(d) * Value(vs[2..], d) else 0)
  {
    if |vs| > 1 {
      assert vs[1..][1..] == vs[2..];
    }
  }

  /** The low byte of a two-value window, shifted down by `s`. */
  lemma WindowByteOf(v0: nat, v1: nat, rest: nat, p: nat, q: nat, r: nat)
    requires p > 0 && q > 0 && r > 0
    ensures v0 / p >= 0
    ensures (v0 + (p * q) * (v1 + (r * 256) * rest)) / p % 256 == (v0 / p + q * v1) % 256
  {
    QuotientIsNat(v0, p);
    var m := v1 + (r * 256) * rest;
    assert (p * q) * m == p * (q * m);
    assert v0 + p * (q * m) == p * (v0 / p + q * m) + v0 % p;
    DivModUnique(v0 + p * (q * m), p, v0 / p + q * m, v0 % p);
    assert q * m == q * v1 + 256 * (q * r * rest) by {
      assert q * ((r * 256) * rest) == 256 * (q * r * rest);
    }
    MultipleVanishes(v0 / p + q * v1, 256, q * r * rest);
  }

  /** Global byte `J` of a packing reads the number from the bit it starts at. */
  lemma ByteWindow(values: seq<nat>, d: nat, n: nat, s: nat, J: nat)
    requires |values| == 256 && Digits(values, d) && n < 256 && 8 * J == d * n + s && J < 32 * d
    ensures Value(values[n..], d) / Pow2(s) >= 0
    ensures PackBytes(values, d)[J] == Value(values[n..], d) / Pow2(s) % 256
  {
    hide Value, Pow2, Digits, PackBytes;
    var x, e: nat := Value(values, d), d * n;
    ByteOfPacking(values, d, J);
    Pow2Adds(e, s);
    ModOfProduct(x, Pow2(e), Pow2(s));
    DropValues(values, d, n);
    QuotientIsNat(Value(values[n..], d), Pow2(s));
  }

  lemma ByteOfPacking(values: seq<nat>, d: nat, J: nat)
    requires |values| == 256 && J < 32 * d
    ensures PackBytes(values, d)[J] == Value(values, d) / Pow2(8 * J) % 256
  {
    hide Value, Pow2;
    TwoToEight();
    DigitOfNumber(Value(values, d), 8, J, 32 * d);
  }

  lemma NextValue(values: seq<nat>, d: nat, n: nat) returns (rest: nat)
    requires |values| == 256 && n < 256
    ensures Value(values[n..], d) == values[n] + Pow2(d) * ((if n + 1 < 256 then values[n + 1] else 0) + Pow2(d) * rest)
  {
    TwoValues(values[n..], d);
    rest := if n + 1 < 256 then Value(values[n..][2..], d) else 0;
  }

  /** A byte that starts `s` bits into value `n` draws from that value and the next. */
  lemma GlobalByte(values: seq<nat>, d: nat, n: nat, s: nat, J: nat)
    requires |values| == 256 && Digits(values, d) && 8 <= d <= 12 && n < 256 && s < d && 8 * J == d * n + s && J < 32 * d
    ensures values[n] / Pow2(s) >= 0
    ensures PackBytes(values, d)[J] == (values[n] / Pow2(s) + Pow2(d - s) * (if n + 1 < 256 then values[n + 1] else 0)) % 256
  {
    hide Value, Pow2, PackBytes, Digits;
    ByteWindow(values, d, n, s, J);
    WindowedByte(values, d, n, s);
  }

  lemma WindowedByte(values: seq<nat>, d: nat, n: nat, s: nat)
    requires |values| == 256 && 8 <= d <= 12 && n < 256 && s < d
    ensures values[n] / Pow2(s) >= 0 && Value(values[n..], d) / Pow2(s) >= 0
    ensures Value(values[n..], d) / Pow2(s) % 256
         == (values[n] / Pow2(s) + Pow2(d - s) * (if n + 1 < 256 then values[n + 1] else 0)) % 256
  {
    hide Value, Pow2;
    QuotientIsNat(Value(values[n..], d), Pow2(s));
    var rest := NextValue(values, d, n);
    Pow2Adds(s, d - s);
    EightBits(d);
    WindowByteOf(values[n], if n + 1 < 256 then values[n + 1] else 0, rest, Pow2(s), Pow2(d - s), Pow2(d - 8));
  }

  lemma EightBits(k: nat)
    requires k >= 8
    ensures Pow2(k) == Pow2(k - 8) * 256
  {
    Pow2Adds(k - 8, 8);
    assert Pow2(8) == 256;
  }

  /** OR-ing the two shifted parts and keeping the low byte adds them mod 256. */
  lemma ByteOfIsSum(simd: Simd, low: nat, v1: nat, k: nat)
    requires low < Pow2(k) && k <= 16
    ensures ByteOf(simd, low, v1 * Pow2(k)) == (low + v1 * Pow2(k)) % 256
  {
    assert Pow2(8) == 256;
    OrDisjoint(low, v1, k);
    AndMask(low + v1 * Pow2(k), 8);
    hide Or, And;
    if simd.Neon? {
      NeonByte(low, v1, k);
    }
  }

  lemma SixteenBits(k: nat)
    requires k <= 16
    ensures Pow2(k) * Pow2(16 - k) == 0x1_0000
  {
    hide Pow2;
    Pow2Adds(k, 16 - k);
    TwoToSixteen();
  }

  lemma NeonByte(low: nat, v1: nat, k: nat)
    requires low < Pow2(k) && k <= 16
    ensures Or(low, (v1 * Pow2(k)) % 0x1_0000) % 256 == (low + v1 * Pow2(k)) % 256
  {
    hide Or, Pow2;
    SixteenBits(k);
    var e := Pow2(16 - k);
    TruncatedShift(v1, Pow2(k), e);
    QuotientIsNat(v1, e);
    var kept: nat := v1 % e;
    OrDisjoint(low, kept, k);
    LowByteKept(low, v1 * Pow2(k));
  }

  lemma TruncatedShift(v: nat, p: nat, e: nat)
    requires p > 0 && e > 0 && p * e == 0x1_0000
    ensures (v * p) % 0x1_0000 == (v % e) * p
  {
    var z, r := v / e, v % e;
    assert v == e * z + r;
    assert v * p == 0x1_0000 * z + r * p by {
      assert (e * z) * p == (p * e) * z;
    }
    assert 0 <= r * p < 0x1_0000 by {
      assert r <= e - 1;
      ProductMonotone(r, e - 1, p);
      assert (e - 1) * p == p * e - p;
    }
    DivModUnique(v * p, 0x1_0000, z, r * p);
  }

  lemma LowByteKept(low: nat, high: nat)
    ensures (low + high % 0x1_0000) % 256 == (low + high) % 256
  {
    assert low + high == (low + high % 0x1_0000) + 256 * (256 * (high / 0x1_0000));
    MultipleVanishes(low + high % 0x1_0000, 256, 256 * (high / 0x1_0000));
  }

  /** Eight values as a vector register. */
  function ChunkOf(values: seq<nat>, i: nat): Lanes
    requires |values| == 256 && Digits(values, 12) && i < 32
  {
    assert Pow2(12) == 4096;
    values[8 * i..8 * i + 8]
  }

  lemma WidthsFit(values: seq<nat>, d: nat)
    requires PacksGathered(d) && Digits(values, d)
    ensures Digits(values, 12)
  {
    Pow2Monotone(d, 12);
  }

  lemma ShiftedBelow(v: nat, d: nat, s: nat)
    requires v < Pow2(d) && s <= d
    ensures 0 <= v / Pow2(s) < Pow2(d - s)
  {
    Pow2Adds(s, d - s);
    QuotientBelow(v, Pow2(s), Pow2(d - s));
    QuotientIsNat(v, Pow2(s));
  }

  lemma BytePosition(d: nat, i: nat, j: nat)
    requires PacksGathered(d) && i < 32 && j < d
    ensures d * i + j < 32 * d && ValueIndex(d, j) < 8
    ensures 8 * (d * i + j) == d * (8 * i + ValueIndex(d, j)) + BitOffset(d, j)
  {
    IndexInGroup(d, j);
    hide ValueIndex, BitOffset;
    var t := ValueIndex(d, j);
    assert d * (8 * i + t) == 8 * (d * i) + d * t;
    ProductMonotone(i, 31, d);
    assert i * d == d * i;
  }

  lemma PackedByteIsSum(simd: Simd, d: nat, chunk: Lanes, j: nat)
    requires PacksGathered(d) && j < d && ValueIndex(d, j) < 8 && chunk[ValueIndex(d, j)] < Pow2(d)
    ensures var t, s := ValueIndex(d, j), BitOffset(d, j);
            && chunk[t] / Pow2(s) >= 0
            && PackedByte(simd, d, chunk, j) == (chunk[t] / Pow2(s) + (if t < 7 then chunk[t + 1] else 0) * Pow2(d - s)) % 256
  {
    hide Pow2, ValueIndex, BitOffset, ByteOf, GatheredValue;
    var t, s := ValueIndex(d, j), BitOffset(d, j);
    ShiftedBelow(chunk[t], d, s);
    ByteOfIsSum(simd, chunk[t] / Pow2(s), if t < 7 then chunk[t + 1] else 0, d - s);
  }

  lemma ChunkAt(values: seq<nat>, i: nat, t: nat)
    requires |values| == 256 && Digits(values, 12) && i < 32 && t < 8
    ensures ChunkOf(values, i)[t] == values[8 * i + t]
  {
    hide Digits;
  }

  /** The group's sum and the packing's sum give one byte: they differ at most in a
      next value that contributes nothing. */
  lemma SumsAgree(low: nat, t: nat, k: nat, inGroup: nat, inPacking: nat)
    requires t < 7 ==> inGroup == inPacking
    requires t >= 7 ==> inGroup == 0 && k >= 8
    ensures (low + inGroup * Pow2(k)) % 256 == (low + Pow2(k) * inPacking) % 256
  {
    if t < 7 {
      TimesSwaps(inGroup, Pow2(k));
    } else {
      EightBits(k);
      NextVanishes(low, inPacking, Pow2(k), Pow2(k - 8));
    }
  }

  /** Byte `j` of group `i` is its byte of the scalar packing. */
  lemma PackedByteIsScalar(simd: Simd, d: nat, values: seq<nat>, i: nat, j: nat)
    requires PacksGathered(d) && |values| == 256 && Digits(values, d) && Digits(values, 12) && i < 32 && j < d
    ensures d * i + j < 32 * d
    ensures PackedByte(simd, d, ChunkOf(values, i), j) == PackBytes(values, d)[d * i + j]
  {
    hide Value, Pow2, PackBytes, ValueIndex, BitOffset, PackedByte, Digits, ChunkOf;
    BytePosition(d, i, j);
    IndexInGroup(d, j);
    var t, s := ValueIndex(d, j), BitOffset(d, j);
    var n := 8 * i + t;
    var inGroup: nat := if t < 7 then ChunkOf(values, i)[t + 1] else 0;
    var inPacking: nat := if n + 1 < 256 then values[n + 1] else 0;
    ChunkAt(values, i, t);
    if t < 7 {
      ChunkAt(values, i, t + 1);
    }
    DigitAt(values, d, n);
    GlobalByte(values, d, n, s, d * i + j);
    PackedByteIsSum(simd, d, ChunkOf(values, i), j);
    SumsAgree(values[n] / Pow2(s), t, d - s, inGroup, inPacking);
  }

  lemma TimesSwaps(a: nat, b: nat)
    ensures a * b == b * a
  {
  }

  /** In a group's last value, the following value contributes nothing to the byte. */
  lemma NextVanishes(low: nat, next: nat, p: nat, r: nat)
    requires p == r * 256
    ensures (low + next * p) % 256 == low % 256 == (low + p * next) % 256
  {
    assert next * (r * 256) == 256 * (next * r);
    MultipleVanishes(low, 256, next * r);
    assert p * next == next * p;
  }

  /** One 8-byte store of the bytes `j0 .. j0 + 8` of a group. */
  method StoreGroup(simd: Simd, d: nat, chunk: Lanes, out: array<byte>, at: nat, j0: nat)
    requires PacksGathered(d) && j0 + 8 <= d && at + j0 + 8 <= out.Length
    modifies out
    ensures forall k | j0 <= k < j0 + 8 :: out[at + k] == PackedByte(simd, d, chunk, k)
    ensures forall x | 0 <= x < out.Length && !(at + j0 <= x < at + j0 + 8) :: out[x] == old(out[x])
  {
    hide PackedByte;
    var k: nat := j0;
    while k < j0 + 8
      invariant j0 <= k <= j0 + 8
      invariant forall m | j0 <= m < k :: out[at + m] == PackedByte(simd, d, chunk, m)
      invariant forall x | 0 <= x < out.Length && !(at + j0 <= x < at + k) :: out[x] == old(out[x])
    {
      out[at + k] := PackedByte(simd, d, chunk, k);
      k := k + 1;
    }
  }

  /** The two overlapping stores of one group. */
  method StoreOverlapping(simd: Simd, d: nat, chunk: Lanes, out: array<byte>, at: nat)
    requires PacksGathered(d) && at + d <= out.Length
    modifies out
    ensures forall k | 0 <= k < d :: out[at + k] == PackedByte(simd, d, chunk, k)
    ensures forall x | 0 <= x < out.Length && !(at <= x < at + d) :: out[x] == old(out[x])
  {
    hide PackedByte;
    StoreGroup(simd, d, chunk, out, at, 0);
    ghost var first := out[..];
    assert forall k | 0 <= k < 8 :: first[at + k] == PackedByte(simd, d, chunk, k);
    StoreGroup(simd, d, chunk, out, at, d - 8);
    forall k | 0 <= k < d ensures out[at + k] == PackedByte(simd, d, chunk, k) {
      if k < d - 8 {
        assert out[at + k] == first[at + k];
      }
    }
  }

  /** `pack_gathered`: the scalar packing, at every supported width. */
  method PackGathered(simd: Simd, values: seq<nat>, d: nat) returns (out: array<byte>)
    requires PacksGathered(d) && |values| == 256 && Digits(values, d)
    ensures fresh(out) && out.Length == 384 && out[..32 * d] == PackBytes(values, d)
    ensures forall i | 32 * d <= i < 384 :: out[i] == 0
  {
    hide PackedByte, PackBytes, Digits, ChunkOf;
    WidthsFit(values, d);
    out := new byte[384](_ => 0);
    var i: nat, at: nat := 0, 0;
    while i < 32
      invariant i <= 32 && at == d * i
      invariant forall x | 0 <= x < at :: out[x] == PackBytes(values, d)[x]
      invariant forall x | at <= x < 384 :: out[x] == 0
    {
      GroupFits(d, i);
      ghost var before := out[..];
      StoreOverlapping(simd, d, ChunkOf(values, i), out, at);
      forall x | 0 <= x < at + d ensures out[x] == PackBytes(values, d)[x] {
        if x >= at {
          PackedByteIsScalar(simd, d, values, i, x - at);
          assert out[at + (x - at)] == PackedByte(simd, d, ChunkOf(values, i), x - at);
        } else {
          assert out[x] == before[x];
        }
      }
      i, at := i + 1, at + d;
    }
  }

  lemma GroupFits(d: nat, i: nat)
    requires d <= 12 && i < 32
    ensures d * (i + 1) == d * i + d && d * i + d <= 32 * d <= 384
  {
    ProductMonotone(i + 1, 32, d);
    assert (i + 1) * d == d * (i + 1);
  }

  /** The dispatch: the narrow widths take the scalar path. */
  method Pack(simd: Simd, values: seq<nat>, d: nat) returns (out: array<byte>)
    requires |values| == 256 && 1 <= d <= 12 && Digits(values, d)
    ensures out.Length == 384 && out[..32 * d] == PackBytes(values, d)
    ensures forall i | 32 * d <= i < 384 :: out[i] == 0
  {
    if PacksGathered(d) {
      out := PackGathered(simd, values, d);
    } else {
      out := Packing.Pack(values, d);
    }
  }
}
