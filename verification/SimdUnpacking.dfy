/** The gather-and-shift unpackers (`src/encoding/arch/avx2.rs`,
    `src/encoding/arch/neon.rs`): each lane reads the bytes its value spans, shifts down
    and masks. They agree with the word-accumulator unpacker, zero padding included. */
module SimdUnpacking {
  import opened Words
  import opened Bits
  import opened Packing
  import opened VectorReject

  /** Byte `i` of a string read as zero-padded. */
  function ByteAt(bytes: seq<byte>, i: nat): byte {
    if i < |bytes| then bytes[i] else 0
  }

  /** Reading from byte `i` on. */
  lemma DropBytes(bytes: seq<byte>, i: nat)
    ensures Value(bytes, 8) / Pow2(8 * i) == Value(if i <= |bytes| then bytes[i..] else [], 8)
  {
    BytesAreDigits(bytes);
    hide Value;
    if i <= |bytes| {
      assert bytes == bytes[..i] + bytes[i..];
      ValueConcat(bytes[..i], bytes[i..], 8);
      BytesAreDigits(bytes[..i]);
      ValueBound(bytes[..i], 8);
      DivModUnique(Value(bytes, 8), Pow2(8 * i), Value(bytes[i..], 8), Value(bytes[..i], 8));
    } else {
      ValueBound(bytes, 8);
      Pow2Monotone(8 * |bytes|, 8 * i);
      DivModUnique(Value(bytes, 8), Pow2(8 * i), 0, Value(bytes, 8));
      NoValue();
    }
  }

  lemma NoValue()
    ensures Value([], 8) == 0
  {
  }

  /** `m` zero-padded bytes from byte `i` on. */
  function Span(bytes: seq<byte>, i: nat, m: nat): (r: seq<byte>)
    ensures |r| == m
  {
    seq<byte>(m, b requires 0 <= b < m => ByteAt(bytes, i + b))
  }

  /** A span is a window of the number the bytes spell. */
  lemma SpanIsWindow(bytes: seq<byte>, i: nat, m: nat)
    ensures Value(Span(bytes, i, m), 8) == Value(bytes, 8) / Pow2(8 * i) % Pow2(8 * m)
  {
    var rest: seq<byte> := if i <= |bytes| then bytes[i..] else [];
    DropBytes(bytes, i);
    hide Value;
    assert Span(bytes, i, m) == ZeroExtended(rest, m) by {
      forall b | 0 <= b < m ensures ByteAt(bytes, i + b) == ZeroExtended(rest, m)[b] {
        if i <= |bytes| && b < |rest| {
          assert rest[b] == bytes[i + b];
        }
      }
    }
    ExtensionKeepsLowBits(rest, m, 8 * m);
    BytesAreDigits(ZeroExtended(rest, m));
    ValueBound(ZeroExtended(rest, m), 8);
    SmallModulo(Value(ZeroExtended(rest, m), 8), Pow2(8 * m));
  }

  /** Digit `n` of the unpacking. */
  lemma {:induction false} DigitOfNumber(x: nat, d: nat, n: nat, count: nat)
    requires n < count
    ensures DigitsOf(x, d, count)[n] == x / Pow2(d * n) % Pow2(d)
    decreases n
  {
    if n > 0 {
      QuotientIsNat(x, Pow2(d));
      DigitOfNumber(x / Pow2(d), d, n - 1, count - 1);
      assert d * n == d + d * (n - 1);
      Pow2Adds(d, d * (n - 1));
      ModOfProduct(x, Pow2(d), Pow2(d * (n - 1)));
    } else {
      assert d * 0 == 0;
    }
  }

  /** Adding a multiple of p * q changes no digit base q at position p. */
  lemma HighPartIsInert(r: nat, p: nat, q: nat, m: nat)
    requires p > 0 && q > 0
    ensures r / p >= 0 && (r + p * (q * m)) / p % q == r / p % q
  {
    QuotientIsNat(r, p);
    assert r + p * (q * m) == p * (r / p + q * m) + r % p;
    DivModUnique(r + p * (q * m), p, r / p + q * m, r % p);
    MultipleVanishes(r / p, q, m);
  }

  lemma Regroup(p: nat, q: nat, e: nat, z: nat)
    ensures ((p * q) * e) * z == p * (q * (e * z))
  {
    assert ((p * q) * e) * z == (p * q) * (e * z);
    assert (p * q) * (e * z) == p * (q * (e * z));
  }

  /** Truncating above the bits that are read changes nothing. */
  lemma TruncationIsInert(x: nat, w: nat, s: nat, d: nat)
    requires s + d <= w
    ensures x % Pow2(w) / Pow2(s) >= 0 && x % Pow2(w) / Pow2(s) % Pow2(d) == x / Pow2(s) % Pow2(d)
  {
    Pow2Adds(s, d);
    Pow2Adds(s + d, w - s - d);
    hide Pow2;
    Truncated(x, Pow2(w), Pow2(s), Pow2(d), Pow2(w - s - d));
  }

  lemma Truncated(x: nat, whole: nat, p: nat, q: nat, e: nat)
    requires p > 0 && q > 0 && e > 0 && whole == (p * q) * e && whole > 0
    ensures x % whole / p >= 0 && x % whole / p % q == x / p % q
  {
    QuotientIsNat(x, whole);
    var z, r := x / whole, x % whole;
    Regroup(p, q, e, z);
    HighPartIsInert(r, p, q, e * z);
    assert x == whole * z + r;
  }

  /** The value a lane computes: gather `m` bytes, shift, mask. */
  function LaneValue(span: nat, shift: nat, d: nat): nat {
    QuotientIsNat(span, Pow2(shift));
    And(span / Pow2(shift), Pow2(d) - 1)
  }

  /** A gathered lane is the value whose first bit lies `shift` bits into byte `start`. */
  lemma LaneReads(bytes: seq<byte>, d: nat, n: nat, start: nat, shift: nat, m: nat)
    requires n < 256 && d * n == 8 * start + shift && shift + d <= 8 * m
    ensures LaneValue(Value(Span(bytes, start, m), 8), shift, d) == UnpackValues(bytes, d)[n]
  {
    hide Value, And;
    var x := Value(bytes, 8);
    DigitOfNumber(x, d, n, 256);
    SpanIsWindow(bytes, start, m);
    Pow2Adds(8 * start, shift);
    ModOfProduct(x, Pow2(8 * start), Pow2(shift));
    QuotientIsNat(x, Pow2(8 * start));
    var y := x / Pow2(8 * start);
    TruncationIsInert(y, 8 * m, shift, d);
    QuotientIsNat(Value(Span(bytes, start, m), 8), Pow2(shift));
    AndMask(Value(Span(bytes, start, m), 8) / Pow2(shift), d);
  }

  // ---- controls ----

  /** The widths each backend unpacks by gathering. */
  predicate Gathers(simd: Simd, d: nat) {
    d == 5 || d == 10 || d == 11 || d == 12 || (d == 4 && simd.Avx2?)
  }

  const IDX_5: seq<byte> := [0, 1, 0, 1, 1, 2, 1, 2, 2, 3, 3, 4, 3, 4, 4, 5]
  const IDX_10: seq<byte> := [0, 1, 1, 2, 2, 3, 3, 4, 5, 6, 6, 7, 7, 8, 8, 9]
  const IDX_12: seq<byte> := [0, 1, 1, 2, 3, 4, 4, 5, 6, 7, 7, 8, 9, 10, 10, 11]
  const IDX_11_LOW: seq<byte> := [0, 1, 2, 3, 1, 2, 3, 4, 2, 3, 4, 5, 4, 5, 6, 7]
  const IDX_11_HIGH: seq<byte> := [5, 6, 7, 8, 6, 7, 8, 9, 8, 9, 10, 11, 9, 10, 11, 12]
  const SHIFTS_5: seq<int> := [0, -5, -2, -7, -4, -1, -6, -3]
  const SHIFTS_10: seq<int> := [0, -2, -4, -6, 0, -2, -4, -6]
  const SHIFTS_12: seq<int> := [0, -4, 0, -4, 0, -4, 0, -4]
  const SHIFTS_11_LOW: seq<int> := [0, -3, -6, -1]
  const SHIFTS_11_HIGH: seq<int> := [-4, -7, -2, -5]

  /** Bytes a lane gathers. */
  function LaneBytes(simd: Simd, d: nat): nat {
    if simd.Avx2? || d == 11 then 4 else 2
  }

  /** The byte, and the bit within it, where value `l` of a group starts. */
  function LaneStart(d: nat, l: nat): nat {
    d * l / 8
  }

  function LaneOffset(d: nat, l: nat): nat {
    d * l % 8
  }

  /** Control byte `b` of lane `l`: computed on AVX2, tabulated on NEON. */
  function GatherIndex(simd: Simd, d: nat, l: nat, b: nat): int
    requires Gathers(simd, d) && l < 8 && b < LaneBytes(simd, d)
  {
    if simd.Avx2? then LaneStart(d, l) + b
    else if d == 5 then IDX_5[2 * l + b]
    else if d == 10 then IDX_10[2 * l + b]
    else if d == 12 then IDX_12[2 * l + b]
    else if l < 4 then IDX_11_LOW[4 * l + b]
    else IDX_11_HIGH[4 * (l - 4) + b]
  }

  /** The bit offset of lane `l`; NEON holds it as a negative left shift. */
  function LaneShift(simd: Simd, d: nat, l: nat): int
    requires Gathers(simd, d) && l < 8
  {
    if simd.Avx2? then LaneOffset(d, l)
    else if d == 5 then -SHIFTS_5[l]
    else if d == 10 then -SHIFTS_10[l]
    else if d == 12 then -SHIFTS_12[l]
    else if l < 4 then -SHIFTS_11_LOW[l]
    else -SHIFTS_11_HIGH[l - 4]
  }

  lemma LaneRange(simd: Simd, d: nat, l: nat)
    requires Gathers(simd, d) && l < 8
    ensures LaneStart(d, l) <= 10 && LaneOffset(d, l) + d <= 8 * LaneBytes(simd, d) && LaneStart(d, l) + LaneBytes(simd, d) <= 16
    ensures LaneStart(d, l) + LaneBytes(simd, d) <= 14
  {
    if d == 4 {
    } else if d == 5 {
    } else if d == 10 {
    } else if d == 11 {
    } else {
    }
  }

  lemma Table5(l: nat, b: nat)
    requires l < 8 && b < 2
    ensures GatherIndex(Neon, 5, l, b) == LaneStart(5, l) + b && LaneShift(Neon, 5, l) == LaneOffset(5, l)
  {
  }

  lemma Table10(l: nat, b: nat)
    requires l < 8 && b < 2
    ensures GatherIndex(Neon, 10, l, b) == LaneStart(10, l) + b && LaneShift(Neon, 10, l) == LaneOffset(10, l)
  {
  }

  lemma Table12(l: nat, b: nat)
    requires l < 8 && b < 2
    ensures GatherIndex(Neon, 12, l, b) == LaneStart(12, l) + b && LaneShift(Neon, 12, l) == LaneOffset(12, l)
  {
  }

  lemma Entries11(l: nat, b: nat)
    requires l < 8 && b < 4
    ensures l < 4 ==> -SHIFTS_11_LOW[l] == LaneOffset(11, l) && IDX_11_LOW[4 * l + b] == LaneStart(11, l) + b
    ensures l >= 4 ==> -SHIFTS_11_HIGH[l - 4] == LaneOffset(11, l) && IDX_11_HIGH[4 * (l - 4) + b] == LaneStart(11, l) + b
  {
  }

  lemma Table11(l: nat, b: nat)
    requires l < 8 && b < 4
    ensures GatherIndex(Neon, 11, l, b) == LaneStart(11, l) + b && LaneShift(Neon, 11, l) == LaneOffset(11, l)
  {
    hide LaneStart, LaneOffset, IDX_11_LOW, IDX_11_HIGH, SHIFTS_11_LOW, SHIFTS_11_HIGH;
    Entries11(l, b);
  }

  lemma Computed(d: nat, l: nat, b: nat)
    requires Gathers(Avx2, d) && l < 8 && b < 4
    ensures GatherIndex(Avx2, d, l, b) == LaneStart(d, l) + b && LaneShift(Avx2, d, l) == LaneOffset(d, l)
  {
    hide LaneStart, LaneOffset;
  }

  /** Lane `l` gathers from byte floor(d * l / 8), and its shift is the rest. */
  lemma ControlsAgree(simd: Simd, d: nat, l: nat, b: nat)
    requires Gathers(simd, d) && l < 8 && b < LaneBytes(simd, d)
    ensures GatherIndex(simd, d, l, b) == LaneStart(d, l) + b < 16 && LaneShift(simd, d, l) == LaneOffset(d, l)
  {
    LaneRange(simd, d, l);
    hide LaneStart, LaneOffset, GatherIndex, LaneShift;
    if simd.Avx2? {
      Computed(d, l, b);
    } else if d == 5 {
      Table5(l, b);
    } else if d == 10 {
      Table10(l, b);
    } else if d == 12 {
      Table12(l, b);
    } else {
      Table11(l, b);
    }
  }

  // ---- the kernels ----

  /** `window`: sixteen bytes at `start`, zero-padded past the end. */
  function WindowAt(bytes: seq<byte>, start: nat): (w: Bytes16) {
    if start + 16 <= |bytes| then bytes[start..start + 16]
    else
      var rest: seq<byte> := if start <= |bytes| then bytes[start..] else [];
      rest + seq<byte>(16 - |rest|, i => 0)
  }

  lemma WindowByte(bytes: seq<byte>, start: nat, j: nat)
    requires j < 16
    ensures WindowAt(bytes, start)[j] == ByteAt(bytes, start + j)
  {
  }

  /** The bytes lane `l` gathers from its window. */
  function GatheredBytes(simd: Simd, d: nat, window: Bytes16, l: nat): (r: seq<byte>)
    requires Gathers(simd, d) && l < 8
    ensures |r| == LaneBytes(simd, d)
  {
    seq<byte>(LaneBytes(simd, d), b requires 0 <= b < LaneBytes(simd, d) => GatheredByte(simd, d, window, l, b))
  }

  function GatheredByte(simd: Simd, d: nat, window: Bytes16, l: nat, b: nat): byte
    requires Gathers(simd, d) && l < 8 && b < LaneBytes(simd, d)
  {
    ControlsAgree(simd, d, l, b);
    ShuffleByte(simd, window, GatherIndex(simd, d, l, b))
  }

  /** Lane `l` of group `i`: gather, shift, mask, narrow. */
  function UnpackLane(simd: Simd, d: nat, bytes: seq<byte>, i: nat, l: nat): nat
    requires Gathers(simd, d) && l < 8
  {
    ControlsAgree(simd, d, l, 0);
    LaneValue(Value(GatheredBytes(simd, d, WindowAt(bytes, d * i), l), 8), LaneShift(simd, d, l), d)
  }

  lemma GatheredIsSpan(simd: Simd, d: nat, bytes: seq<byte>, at: nat, l: nat)
    requires Gathers(simd, d) && l < 8
    ensures GatheredBytes(simd, d, WindowAt(bytes, at), l) == Span(bytes, at + LaneStart(d, l), LaneBytes(simd, d))
  {
    var gathered, span := GatheredBytes(simd, d, WindowAt(bytes, at), l), Span(bytes, at + LaneStart(d, l), LaneBytes(simd, d));
    hide GatherIndex, LaneBytes, LaneStart, WindowAt, ByteAt;
    forall b | 0 <= b < LaneBytes(simd, d) ensures gathered[b] == span[b] {
      ControlsAgree(simd, d, l, b);
      WindowByte(bytes, at, LaneStart(d, l) + b);
    }
  }

  /** Every gathered lane is its value of the scalar unpacking, at every width, group and
      input length, including the windows past the end. */
  lemma UnpackLaneIsScalar(simd: Simd, d: nat, bytes: seq<byte>, i: nat, l: nat)
    requires Gathers(simd, d) && i < 32 && l < 8
    ensures UnpackLane(simd, d, bytes, i, l) == UnpackValues(bytes, d)[8 * i + l]
  {
    hide GatherIndex, LaneShift, GatheredBytes, UnpackValues, LaneValue, Span, WindowAt, Value, LaneStart, LaneOffset;
    ControlsAgree(simd, d, l, 0);
    hide LaneBytes;
    GatheredIsSpan(simd, d, bytes, d * i, l);
    LanePosition(d, i, l);
    LaneRange(simd, d, l);
    LaneReads(bytes, d, 8 * i + l, d * i + LaneStart(d, l), LaneOffset(d, l), LaneBytes(simd, d));
  }

  lemma LanePosition(d: nat, i: nat, l: nat)
    ensures d * (8 * i + l) == 8 * (d * i + LaneStart(d, l)) + LaneOffset(d, l)
  {
    assert d * (8 * i + l) == 8 * (d * i) + d * l;
  }

  /** `unpack_gathered` (and NEON's `unpack_11`): eight values from each window. */
  method UnpackGathered(simd: Simd, bytes: seq<byte>, d: nat) returns (out: array<nat>)
    requires Gathers(simd, d)
    ensures fresh(out) && out[..] == UnpackValues(bytes, d)
  {
    hide UnpackLane, UnpackValues;
    out := new nat[256];
    var i: nat := 0;
    while i < 32
      invariant i <= 32 && forall n | 0 <= n < 8 * i :: out[n] == UnpackValues(bytes, d)[n]
    {
      var l: nat := 0;
      while l < 8
        invariant l <= 8 && forall n | 0 <= n < 8 * i + l :: out[n] == UnpackValues(bytes, d)[n]
      {
        UnpackLaneIsScalar(simd, d, bytes, i, l);
        out[8 * i + l] := UnpackLane(simd, d, bytes, i, l);
        l := l + 1;
      }
      i := i + 1;
    }
  }

  /** A nibble of a byte is a 4-bit value. */
  lemma NibbleReads(bytes: seq<byte>, t: nat)
    requires t < |bytes| == 128
    ensures bytes[t] % 16 == UnpackValues(bytes, 4)[2 * t] && bytes[t] / 16 == UnpackValues(bytes, 4)[2 * t + 1]
  {
    hide UnpackValues, And, LaneValue;
    SpanOfOne(bytes, t);
    SingleDigit(bytes[t], 8);
    hide Span, Value;
    LaneReads(bytes, 4, 2 * t, t, 0, 1);
    LaneReads(bytes, 4, 2 * t + 1, t, 4, 1);
    Nibbles(bytes[t]);
  }

  lemma SpanOfOne(bytes: seq<byte>, t: nat)
    requires t < |bytes|
    ensures Span(bytes, t, 1) == [bytes[t]]
  {
    assert ByteAt(bytes, t + 0) == bytes[t];
  }

  lemma Nibbles(x: byte)
    ensures LaneValue(x, 0, 4) == x % 16 && LaneValue(x, 4, 4) == x / 16
  {
    FourBits();
    AndMask(x, 4);
    AndMask(x / 16, 4);
    hide And, Pow2;
  }

  lemma FourBits()
    ensures Pow2(0) == 1 && Pow2(4) == 16
  {
  }

  /** NEON's `unpack_4`: low and high nibbles zipped, thirty-two values per load. */
  method Unpack4(bytes: seq<byte>) returns (out: array<nat>)
    requires |bytes| == 128
    ensures fresh(out) && out[..] == UnpackValues(bytes, 4)
  {
    hide UnpackValues;
    out := new nat[256];
    var chunk: nat := 0;
    while chunk < 8
      invariant chunk <= 8 && forall n | 0 <= n < 32 * chunk :: out[n] == UnpackValues(bytes, 4)[n]
    {
      var data := bytes[16 * chunk..16 * chunk + 16];
      var lane: nat := 0;
      while lane < 16
        invariant lane <= 16 && forall n | 0 <= n < 32 * chunk + 2 * lane :: out[n] == UnpackValues(bytes, 4)[n]
      {
        NibbleReads(bytes, 16 * chunk + lane);
        out[32 * chunk + 2 * lane] := data[lane] % 16;
        out[32 * chunk + 2 * lane + 1] := data[lane] / 16;
        lane := lane + 1;
      }
      chunk := chunk + 1;
    }
  }

  /** The dispatch: widths without a kernel, and NEON's short inputs, take the scalar path. */
  method Unpack(simd: Simd, bytes: seq<byte>, d: nat) returns (values: seq<nat>)
    requires 1 <= d <= 12
    ensures values == UnpackValues(bytes, d)
  {
    if simd.Neon? && |bytes| != 32 * d {
      values := Packing.Unpack(bytes, d);
    } else if simd.Neon? && d == 4 {
      var out := Unpack4(bytes);
      values := out[..];
    } else if Gathers(simd, d) {
      var out := UnpackGathered(simd, bytes, d);
      values := out[..];
    } else {
      values := Packing.Unpack(bytes, d);
    }
  }
}
