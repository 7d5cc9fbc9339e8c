/** The portable bit packer of `src/encoding/arch/generic.rs`: d-bit values move
    through a 128-bit accumulator in 64-bit words. Packing and unpacking are proved
    to be a change of base between digits of d bits and digits of 8 bits. */
module Packing {
  import opened Words
  import opened Bits

  /** `ByteEncode_d` of 256 values: the 32 * d bytes of the number they spell. */
  function PackBytes(values: seq<nat>, d: nat): (bytes: seq<byte>)
    requires |values| == 256
    ensures |bytes| == 32 * d
  {
    BytesOf(Value(values, d), 32 * d)
  }

  /** The low `n` bytes of a number, least significant first. */
  function BytesOf(x: nat, n: nat): (bytes: seq<byte>)
    ensures bytes == DigitsOf(x, 8, n) && |bytes| == n
  {
    assert Pow2(8) == 256;
    var digits := DigitsOf(x, 8, n);
    seq(n, i requires 0 <= i < n => digits[i])
  }

  /** `ByteDecode_d`: the low 256 digits of the number the bytes spell. A short input
      reads as zero-padded, a long one as truncated. */
  function UnpackValues(bytes: seq<byte>, d: nat): (values: seq<nat>)
    ensures |values| == 256 && Digits(values, d)
  {
    DigitsOf(Value(bytes, 8), d, 256)
  }

  lemma BytesAreDigits(bytes: seq<byte>)
    ensures Digits(bytes, 8)
  {
    assert Pow2(8) == 256;
  }

  // ---- the two codecs are inverse ----

  /** The bytes of a packing spell the number its values spell. */
  lemma ValueOfPacking(values: seq<nat>, d: nat)
    requires |values| == 256 && Digits(values, d)
    ensures Value(PackBytes(values, d), 8) == Value(values, d)
  {
    ValueBound(values, d);
    ValueOfDigits(Value(values, d), 8, 32 * d);
    assert 8 * (32 * d) == d * 256;
    SmallModulo(Value(values, d), Pow2(d * 256));
  }

  lemma UnpackOfPack(values: seq<nat>, d: nat)
    requires |values| == 256 && Digits(values, d)
    ensures UnpackValues(PackBytes(values, d), d) == values
  {
    hide PackBytes, Value, DigitsOf;
    ValueOfPacking(values, d);
    DigitsOfValue(values, d);
  }

  lemma PackOfUnpack(bytes: seq<byte>, d: nat)
    requires |bytes| == 32 * d
    ensures PackBytes(UnpackValues(bytes, d), d) == bytes
  {
    var x := Value(bytes, 8);
    BytesAreDigits(bytes);
    ValueBound(bytes, 8);
    ValueOfDigits(x, d, 256);
    assert 8 * (32 * d) == d * 256;
    SmallModulo(x, Pow2(d * 256));
    DigitsOfValue(bytes, 8);
  }

  lemma SmallModulo(x: nat, p: nat)
    requires x < p
    ensures x % p == x
  {
  }

  /** Bit `j` of value `i` lands at bit `i * d + j` of the byte stream. */
  lemma BitLandsAt(values: seq<nat>, d: nat, i: nat, j: nat)
    requires |values| == 256 && Digits(values, d) && i < 256 && j < d
    ensures var k := i * d + j;
      k / 8 < 32 * d && Bit(PackBytes(values, d)[k / 8], k % 8) == Bit(values[i], j)
  {
    hide Value, Pow2, Bit, PackBytes;
    var k, bytes := i * d + j, PackBytes(values, d);
    ProductMonotone(i, 255, d);
    BitPosition(k, d);
    BytesAreDigits(bytes);
    BitOfValue(bytes, 8, k / 8, k % 8);
    BitOfValue(values, d, i, j);
    ValueOfPacking(values, d);
  }

  /** Bit `j` of unpacked value `i` is bit `i * d + j` of the byte stream. */
  lemma BitReadFrom(bytes: seq<byte>, d: nat, i: nat, j: nat, k: nat)
    requires |bytes| == 32 * d && i < 256 && j < d && k == i * d + j
    ensures k / 8 < |bytes|
    ensures Bit(UnpackValues(bytes, d)[i], j) == Bit(bytes[k / 8], k % 8)
  {
    hide Bit, PackBytes, UnpackValues, Value, Pow2, Digits;
    PackOfUnpack(bytes, d);
    var values := UnpackValues(bytes, d);
    BitLandsAt(values, d, i, j);
  }

  lemma BitPosition(k: nat, d: nat)
    requires k < 256 * d
    ensures k / 8 < 32 * d && k / 8 * 8 + k % 8 == k
  {
  }

  // ---- packing ----

  /** After `i` values: `word` whole words are out and the accumulator holds the
      remaining `bits` bits. */
  ghost predicate PackState(done: seq<nat>, written: seq<byte>, d: nat, word: nat, acc: nat, bits: nat) {
    && |written| == 8 * word && 64 * word + bits == d * |done|
    && acc < Pow2(bits)
    && Value(written, 8) + Pow2(64 * word) * acc == Value(done, d)
  }

  /** `(value as u128) << bits`. */
  function Shifted(v: nat, bits: nat): nat {
    v * Pow2(bits)
  }

  lemma AbsorbValue(done: seq<nat>, v: nat, written: seq<byte>, d: nat, word: nat, acc: nat, bits: nat)
    requires PackState(done, written, d, word, acc, bits) && v < Pow2(d)
    ensures Or(acc, Shifted(v, bits)) == acc + Shifted(v, bits)
    ensures PackState(done + [v], written, d, word, acc + Shifted(v, bits), bits + d)
  {
    hide Value;
    hide Pow2;
    hide Or;
    OrDisjoint(acc, v, bits);
    ValueConcat(done, [v], d);
    SingleDigit(v, d);
    Pow2Adds(64 * word, bits);
    Pow2Adds(bits, d);
    TopDigit(acc, v, Pow2(bits), Pow2(d));
    Spread(Pow2(64 * word), Pow2(bits), acc, v);
    NextMultiple(d, |done|);
  }

  lemma SingleDigit(v: nat, d: nat)
    ensures Value([v], d) == v
  {
  }

  lemma Spread(p: nat, q: nat, low: nat, high: nat)
    ensures p * (low + high * q) == p * low + (p * q) * high
    ensures p * (low + q * high) == p * low + (p * q) * high
    ensures low + high * q == low + q * high
  {
  }

  lemma NextMultiple(d: nat, n: nat)
    ensures d * (n + 1) == d * n + d
  {
  }

  lemma FlushWord(done: seq<nat>, written: seq<byte>, d: nat, word: nat, acc: nat, bits: nat)
    requires PackState(done, written, d, word, acc, bits) && bits >= 64
    ensures acc / Pow2(64) >= 0
    ensures PackState(done, written + BytesOf(acc, 8), d, word + 1, acc / Pow2(64), bits - 64)
  {
    hide Value;
    hide Pow2;
    var r, bytes := Pow2(64), BytesOf(acc, 8);
    hide BytesOf;
    QuotientIsNat(acc, r);
    ValueOfDigits(acc, 8, 8);
    ValueConcat(written, bytes, 8);
    Pow2Adds(64 * word, 64);
    Pow2Adds(64, bits - 64);
    QuotientBelow(acc, r, Pow2(bits - 64));
    Spread(Pow2(64 * word), r, acc % r, acc / r);
  }

  lemma QuotientBelow(x: nat, p: nat, q: nat)
    requires p > 0 && x < p * q
    ensures x / p < q && x == x % p + p * (x / p)
  {
    QuotientIsNat(x, p);
    assert p * (x / p) <= x;
    assert x / p < q by {
      if x / p >= q {
        ProductMonotone(q, x / p, p);
      }
    }
  }

  /** `pack`. */
  method Pack(values: seq<nat>, d: nat) returns (out: array<byte>)
    requires |values| == 256 && 1 <= d <= 12 && Digits(values, d)
    ensures out.Length == 384 && out[..32 * d] == PackBytes(values, d)
    ensures forall i | 32 * d <= i < 384 :: out[i] == 0
  {
    hide *;
    out := new byte[384](i => 0);
    var word: nat, accumulator: nat, bits: nat := 0, 0, 0;
    PackStart(d);
    assert values[..0] == [] && out[..0] == [];
    for i := 0 to 256
      invariant bits < 64 && 8 * word <= 384
      invariant PackState(values[..i], out[..8 * word], d, word, accumulator, bits)
      invariant forall j | 8 * word <= j < 384 :: out[j] == 0
    {
      DigitAt(values, d, i);
      AbsorbValue(values[..i], values[i], out[..8 * word], d, word, accumulator, bits);
      assert values[..i] + [values[i]] == values[..i + 1];
      accumulator := Or(accumulator, Shifted(values[i], bits));
      bits := bits + d;
      if bits >= 64 {
        FlushWord(values[..i + 1], out[..8 * word], d, word, accumulator, bits);
        WordsLeft(values[..i + 1], out[..8 * word], d, word, accumulator, bits);
        ghost var was := out[..8 * word];
        StoreWord(out, 8 * word, accumulator);
        assert out[..8 * (word + 1)] == was + BytesOf(accumulator, 8);
        word := word + 1;
        accumulator := accumulator / Pow2(64);
        bits := bits - 64;
      }
    }
    assert values[..256] == values;
    PackFinish(values, out[..8 * word], d, word, accumulator, bits);
  }

  lemma DigitAt(values: seq<nat>, d: nat, i: nat)
    requires Digits(values, d) && i < |values|
    ensures values[i] < Pow2(d)
  {
  }

  lemma PackStart(d: nat)
    ensures PackState([], [], d, 0, 0, 0)
  {
  }

  /** The 48 words of the buffer never run out. */
  lemma WordsLeft(done: seq<nat>, written: seq<byte>, d: nat, word: nat, acc: nat, bits: nat)
    requires PackState(done, written, d, word, acc, bits) && bits >= 64 && d <= 12 && |done| <= 256
    ensures 8 * word + 8 <= 384
  {
    ProductMonotone(d, 12, |done|);
  }

  lemma PackFinish(values: seq<nat>, written: seq<byte>, d: nat, word: nat, acc: nat, bits: nat)
    requires PackState(values, written, d, word, acc, bits) && |values| == 256 && bits < 64
    ensures |written| == 32 * d && written == PackBytes(values, d)
  {
    assert word == 4 * d && bits == 0;
    assert Pow2(0) == 1;
    BytesAreDigits(written);
    DigitsOfValue(written, 8);
  }

  /** `to_le_bytes` into an 8-byte chunk. */
  method StoreWord(out: array<byte>, at: nat, word: nat)
    requires at + 8 <= out.Length
    modifies out
    ensures out[at..at + 8] == BytesOf(word, 8)
    ensures forall j | 0 <= j < out.Length && !(at <= j < at + 8) :: out[j] == old(out[j])
  {
    hide BytesOf, DigitsOf, Value, Pow2;
    var bytes := BytesOf(word, 8);
    for k := 0 to 8
      invariant forall j | 0 <= j < k :: out[at + j] == bytes[j]
      invariant forall j | 0 <= j < out.Length && !(at <= j < at + k) :: out[j] == old(out[j])
    {
      out[at + k] := bytes[k];
    }
  }

  // ---- unpacking ----

  /** The first `n` bytes of `bytes`, continued with zeros. */
  function ZeroExtended(bytes: seq<byte>, n: nat): (r: seq<byte>)
    ensures |r| == n
  {
    seq(n, i requires 0 <= i < n => if i < |bytes| then bytes[i] else 0)
  }

  /** The `k`th 64-bit word of the zero-extended input. */
  function WordAt(bytes: seq<byte>, k: nat): (w: nat)
    ensures w < Pow2(64)
  {
    var window := ZeroExtended(bytes, 8 * k + 8)[8 * k..];
    BytesAreDigits(window);
    ValueBound(window, 8);
    Value(window, 8)
  }

  /** The stateful word source of `unpack`: whole chunks, then a zero-padded tail once, then zeros. */
  class WordReader {
    const bytes: seq<byte>
    var chunk: nat
    var tailPending: bool

    /** `taken` words have been handed out. */
    ghost predicate Valid(taken: nat)
      reads this
    {
      && chunk == (if taken < |bytes| / 8 then taken else |bytes| / 8)
      && (tailPending <==> |bytes| % 8 != 0 && taken <= |bytes| / 8)
    }

    constructor (bytes: seq<byte>)
      ensures this.bytes == bytes && Valid(0)
    {
      this.bytes := bytes;
      chunk := 0;
      tailPending := |bytes| % 8 != 0;
    }

    method NextWord(ghost taken: nat) returns (w: nat)
      requires Valid(taken)
      modifies this
      ensures Valid(taken + 1) && w == WordAt(bytes, taken)
    {
      hide WordAt, Value;
      if 8 * chunk + 8 <= |bytes| {
        assert taken == chunk;
        WholeWord(bytes, chunk);
        w := Value(bytes[8 * chunk..8 * chunk + 8], 8);
        chunk := chunk + 1;
      } else if tailPending {
        assert taken == chunk;
        PaddedWord(bytes, chunk);
        var rest := bytes[8 * chunk..];
        w := Value(rest + seq(8 - |rest|, i => 0), 8);
        tailPending := false;
      } else {
        WordPastEnd(bytes, taken);
        w := 0;
      }
    }
  }

  lemma WholeWord(bytes: seq<byte>, k: nat)
    requires 8 * k + 8 <= |bytes|
    ensures WordAt(bytes, k) == Value(bytes[8 * k..8 * k + 8], 8)
  {
    hide Value;
    assert ZeroExtended(bytes, 8 * k + 8)[8 * k..] == bytes[8 * k..8 * k + 8];
  }

  lemma PaddedWord(bytes: seq<byte>, k: nat)
    requires 8 * k <= |bytes| < 8 * k + 8
    ensures WordAt(bytes, k) == Value(bytes[8 * k..] + seq(8 - |bytes[8 * k..]|, i => 0), 8)
  {
    hide Value;
    assert ZeroExtended(bytes, 8 * k + 8)[8 * k..] == bytes[8 * k..] + seq(8 - |bytes[8 * k..]|, i => 0);
  }

  lemma WordPastEnd(bytes: seq<byte>, k: nat)
    requires |bytes| <= 8 * k
    ensures WordAt(bytes, k) == 0
  {
    hide Value;
    assert ZeroExtended(bytes, 8 * k + 8)[8 * k..] == seq(8, i => 0);
    ValueOfZeros(8, 8);
  }

  lemma {:induction false} ValueOfZeros(n: nat, d: nat)
    ensures Value(seq(n, i => 0), d) == 0
  {
    if n > 0 {
      assert seq(n, i => 0)[1..] == seq(n - 1, i => 0);
      ValueOfZeros(n - 1, d);
    }
  }

  lemma ExtendByWord(bytes: seq<byte>, w: nat)
    ensures Value(ZeroExtended(bytes, 8 * (w + 1)), 8)
         == Value(ZeroExtended(bytes, 8 * w), 8) + Pow2(64 * w) * WordAt(bytes, w)
  {
    hide Value;
    hide Pow2;
    var all := ZeroExtended(bytes, 8 * w + 8);
    assert all == ZeroExtended(bytes, 8 * w) + all[8 * w..];
    ValueConcat(ZeroExtended(bytes, 8 * w), all[8 * w..], 8);
  }

  /** Zero-extending or truncating at or past 2^k changes nothing below it. */
  lemma ExtensionKeepsLowBits(bytes: seq<byte>, n: nat, k: nat)
    requires k <= 8 * n
    ensures Value(ZeroExtended(bytes, n), 8) % Pow2(k) == Value(bytes, 8) % Pow2(k)
  {
    hide Value;
    hide Pow2;
    if n >= |bytes| {
      var zeros := seq(n - |bytes|, i => 0);
      assert ZeroExtended(bytes, n) == bytes + zeros;
      ValueConcat(bytes, zeros, 8);
      ValueOfZeros(n - |bytes|, 8);
    } else {
      var low, high := bytes[..n], bytes[n..];
      assert ZeroExtended(bytes, n) == low && bytes == low + high;
      ValueConcat(low, high, 8);
      Pow2Adds(k, 8 * n - k);
      LowBitsKept(Value(low, 8), Pow2(k), Pow2(8 * n - k), Value(high, 8));
    }
  }

  lemma LowBitsKept(x: nat, p: nat, e: nat, h: nat)
    requires p > 0
    ensures (x + p * e * h) % p == x % p
  {
    assert p * e * h == p * (e * h);
    MultipleVanishes(x, p, e * h);
  }

  lemma MultipleVanishes(x: nat, p: nat, m: nat)
    requires p > 0
    ensures (x + p * m) % p == x % p
  {
    assert x + p * m == p * (x / p + m) + x % p;
    DivModUnique(x + p * m, p, x / p + m, x % p);
  }

  /** After `taken` words and the values `done`: the accumulator holds what is left. */
  ghost predicate UnpackState(bytes: seq<byte>, done: seq<nat>, d: nat, taken: nat, acc: nat, bits: nat) {
    && d * |done| + bits == 64 * taken && acc < Pow2(bits)
    && Value(done, d) + Pow2(d * |done|) * acc == Value(ZeroExtended(bytes, 8 * taken), 8)
  }

  lemma TakeWord(bytes: seq<byte>, done: seq<nat>, d: nat, taken: nat, acc: nat, bits: nat)
    requires UnpackState(bytes, done, d, taken, acc, bits)
    ensures var w := WordAt(bytes, taken);
      Or(acc, w * Pow2(bits)) == acc + w * Pow2(bits)
      && UnpackState(bytes, done, d, taken + 1, acc + w * Pow2(bits), bits + 64)
  {
    hide Value;
    hide Pow2;
    hide Or;
    hide WordAt;
    hide ZeroExtended;
    var w := WordAt(bytes, taken);
    OrDisjoint(acc, w, bits);
    ExtendByWord(bytes, taken);
    Pow2Adds(d * |done|, bits);
    Pow2Adds(bits, 64);
    TopDigit(acc, w, Pow2(bits), Pow2(64));
    Spread(Pow2(d * |done|), Pow2(bits), acc, w);
  }

  lemma EmitValue(bytes: seq<byte>, done: seq<nat>, d: nat, taken: nat, acc: nat, bits: nat)
    requires UnpackState(bytes, done, d, taken, acc, bits) && d <= bits
    ensures acc / Pow2(d) >= 0
    ensures UnpackState(bytes, done + [acc % Pow2(d)], d, taken, acc / Pow2(d), bits - d)
  {
    hide Value;
    hide Pow2;
    hide ZeroExtended;
    var p := Pow2(d);
    QuotientIsNat(acc, p);
    Pow2Adds(d, bits - d);
    QuotientBelow(acc, p, Pow2(bits - d));
    NextMultiple(d, |done|);
    Pow2Adds(d * |done|, d);
    ValueConcat(done, [acc % p], d);
    SingleDigit(acc % p, d);
    Spread(Pow2(d * |done|), p, acc % p, acc / p);
  }

  lemma UnpackStart(bytes: seq<byte>, d: nat)
    ensures UnpackState(bytes, [], d, 0, 0, 0)
  {
  }

  lemma UnpackFinish(bytes: seq<byte>, values: seq<nat>, d: nat, taken: nat, acc: nat, bits: nat)
    requires UnpackState(bytes, values, d, taken, acc, bits) && |values| == 256 && Digits(values, d)
    ensures values == UnpackValues(bytes, d)
  {
    hide Value;
    hide Pow2;
    hide DigitsOf;
    var all := Value(ZeroExtended(bytes, 8 * taken), 8);
    ValueBound(values, d);
    SmallModulo(Value(values, d), Pow2(d * 256));
    MultipleVanishes(Value(values, d), Pow2(d * 256), acc);
    ExtensionKeepsLowBits(bytes, 8 * taken, d * 256);
    DigitsOfModulo(Value(values, d), Value(bytes, 8), d, 256);
    DigitsOfValue(values, d);
  }

  lemma MaskedDigit(acc: nat, d: nat)
    ensures And(acc, Pow2(d) - 1) == acc % Pow2(d) && acc % Pow2(d) < Pow2(d)
  {
    AndMask(acc, d);
  }

  /** `unpack`. */
  method Unpack(bytes: seq<byte>, d: nat) returns (values: seq<nat>)
    requires 1 <= d <= 12
    ensures values == UnpackValues(bytes, d)
  {
    hide *;
    var mask := Pow2(d) - 1;
    var words := new WordReader(bytes);
    ghost var taken: nat := 0;
    var accumulator: nat, bits: nat := 0, 0;
    values := [];
    UnpackStart(bytes, d);
    NoDigits(d);
    for i := 0 to 256
      invariant |values| == i && Digits(values, d)
      invariant words.Valid(taken) && words.bytes == bytes && fresh(words)
      invariant UnpackState(bytes, values, d, taken, accumulator, bits)
    {
      if bits < d {
        TakeWord(bytes, values, d, taken, accumulator, bits);
        var word := words.NextWord(taken);
        accumulator := Or(accumulator, word * Pow2(bits));
        bits := bits + 64;
        taken := taken + 1;
      }
      EmitValue(bytes, values, d, taken, accumulator, bits);
      MaskedDigit(accumulator, d);
      MoreDigits(values, accumulator % Pow2(d), d);
      values := values + [And(accumulator, mask)];
      accumulator := accumulator / Pow2(d);
      bits := bits - d;
    }
    UnpackFinish(bytes, values, d, taken, accumulator, bits);
  }

  lemma NoDigits(d: nat)
    ensures Digits([], d)
  {
  }

  lemma MoreDigits(values: seq<nat>, v: nat, d: nat)
    requires Digits(values, d) && v < Pow2(d)
    ensures Digits(values + [v], d)
  {
    hide Pow2;
  }
}
