/** The table-driven eight-lane rejection kernels (`src/sampling/arch/avx2.rs`,
    `src/sampling/arch/neon.rs`) and their compaction table (`src/sampling/arch.rs`). */
module VectorReject {
  import opened Words
  import opened Bits
  import opened Rejection
  import opened Registers

  /** A 128-bit register as sixteen bytes. */
  type Bytes16 = b: seq<byte> | |b| == 16 witness seq(16, i => 0)

  /** The same register as eight little-endian 16-bit lanes. */
  type Lanes = v: seq<nat> | |v| == 8 && forall i | 0 <= i < 8 :: v[i] < 0x1_0000 witness seq(8, i => 0)

  /** Two bytes as a little-endian 16-bit lane. */
  function PairOf(low: byte, high: byte): (lane: nat)
    ensures lane < 0x1_0000
  {
    (low as int) + 256 * (high as int)
  }

  function LaneAt(b: Bytes16, i: nat): (lane: nat)
    requires i < 8
    ensures lane < 0x1_0000
  {
    PairOf(b[2 * i], b[2 * i + 1])
  }

  function LanesOf(b: Bytes16): Lanes {
    seq(8, i requires 0 <= i < 8 => LaneAt(b, i))
  }

  function LaneByte(lane: nat, half: nat): byte
    requires lane < 0x1_0000
  {
    if half == 0 then lane % 256 else lane / 256
  }

  function BytesOfLanes(v: Lanes): Bytes16 {
    seq(16, i requires 0 <= i < 16 => LaneByte(v[i / 2], i % 2))
  }

  lemma EvenAndOdd(i: nat)
    ensures (2 * i) / 2 == i && (2 * i) % 2 == 0 && (2 * i + 1) / 2 == i && (2 * i + 1) % 2 == 1
  {
  }

  /** The byte shuffle: `pshufb` zeroes a lane whose index has its top bit set, `tbl`
      one whose index is out of range. */
  function Shuffle(simd: Simd, data: Bytes16, index: Bytes16): Bytes16 {
    seq(16, i requires 0 <= i < 16 => ShuffleByte(simd, data, index[i]))
  }

  function ShuffleByte(simd: Simd, data: Bytes16, index: byte): byte {
    if simd.Avx2? then (if index >= 0x80 then 0 else data[index % 16])
    else if index < 16 then data[index] else 0
  }

  /** The index the shuffle maps to zero. */
  function Padding(simd: Simd): byte {
    if simd.Avx2? then 0x80 else 0xFF
  }

  // ---- the compaction table ----

  /** The set bits of `mask` below `n`, ascending. */
  function SetLanes(mask: nat, n: nat): (lanes: seq<nat>)
    ensures |lanes| <= n && forall p | 0 <= p < |lanes| :: lanes[p] < n
  {
    if n == 0 then [] else SetLanes(mask, n - 1) + (if Bit(mask, n - 1) == 1 then [n - 1] else [])
  }

  /** Entry `b` of the shuffle that packs the set lanes of `mask` to the front. */
  function CompactEntry(mask: nat, b: nat, padding: byte): byte
    requires b < 16
  {
    var lanes := SetLanes(mask, 8);
    if b / 2 < |lanes| then 2 * lanes[b / 2] + b % 2 else padding
  }

  lemma {:induction false} AndOneBit(mask: nat, lane: nat)
    ensures And(mask, Pow2(lane)) != 0 <==> Bit(mask, lane) == 1
    decreases lane
  {
    if lane == 0 {
      assert And(mask, 1) == if mask % 2 == 1 then 1 + 2 * And(mask / 2, 0) else 2 * And(mask / 2, 0);
    } else {
      AndOneBit(mask / 2, lane - 1);
      ModOfProduct(mask, 2, Pow2(lane - 1));
      assert 2 * Pow2(lane - 1) / 2 == Pow2(lane - 1) && 2 * Pow2(lane - 1) % 2 == 0;
    }
  }

  /** Every row but `mask` is as it was. */
  twostate predicate OtherRowsKept(table: array2<byte>, mask: nat)
    requires table.Length1 == 16
    reads table
  {
    forall m, b | 0 <= m < table.Length0 && m != mask && 0 <= b < 16 :: table[m, b] == old(table[m, b])
  }

  method PadRow(table: array2<byte>, mask: nat, padding: byte)
    requires mask < table.Length0 && table.Length1 == 16
    modifies table
    ensures OtherRowsKept(table, mask) && forall b | 0 <= b < 16 :: table[mask, b] == padding
  {
    var byteIndex: nat := 0;
    while byteIndex < 16
      invariant byteIndex <= 16 && OtherRowsKept(table, mask)
      invariant forall b | 0 <= b < byteIndex :: table[mask, b] == padding
    {
      table[mask, byteIndex] := padding;
      byteIndex := byteIndex + 1;
    }
  }

  /** One row of the table: padding everywhere, then the byte pairs of the set lanes. */
  method FillRow(table: array2<byte>, mask: nat, padding: byte)
    requires mask < table.Length0 && table.Length1 == 16
    modifies table
    ensures forall b | 0 <= b < 16 :: table[mask, b] == CompactEntry(mask, b, padding)
    ensures forall m, b | 0 <= m < table.Length0 && m != mask && 0 <= b < 16 :: table[m, b] == old(table[m, b])
  {
    hide Bit, And, Pow2;
    PadRow(table, mask, padding);
    var packed: nat, lane: nat := 0, 0;
    while lane < 8
      invariant lane <= 8 && packed == |SetLanes(mask, lane)| && OtherRowsKept(table, mask)
      invariant forall b | 0 <= b < 2 * packed :: table[mask, b] == 2 * SetLanes(mask, lane)[b / 2] + b % 2
      invariant forall b | 2 * packed <= b < 16 :: table[mask, b] == padding
    {
      AndOneBit(mask, lane);
      if And(mask, Pow2(lane)) != 0 {
        table[mask, 2 * packed] := 2 * lane;
        table[mask, 2 * packed + 1] := 2 * lane + 1;
        packed := packed + 1;
      }
      lane := lane + 1;
    }
  }

  /** `compact_table`: one 16-byte shuffle for each of the 256 acceptance masks. */
  method CompactTable(padding: byte) returns (table: array2<byte>)
    ensures fresh(table) && table.Length0 == 256 && table.Length1 == 16
    ensures forall m, b | 0 <= m < 256 && 0 <= b < 16 :: table[m, b] == CompactEntry(m, b, padding)
  {
    hide CompactEntry;
    table := new byte[256, 16];
    var mask: nat := 0;
    while mask < 256
      invariant mask <= 256
      invariant forall m, b | 0 <= m < mask && 0 <= b < 16 :: table[m, b] == CompactEntry(m, b, padding)
    {
      FillRow(table, mask, padding);
      mask := mask + 1;
    }
  }

  /** A table row as a shuffle control. */
  function CompactRow(mask: nat, padding: byte): Bytes16 {
    seq(16, b requires 0 <= b < 16 => CompactEntry(mask, b, padding))
  }

  /** The lanes `mask` selects, in order. */
  function Selected(v: Lanes, mask: nat): (r: seq<nat>)
    ensures |r| <= 8
  {
    var lanes := SetLanes(mask, 8);
    seq(|lanes|, p requires 0 <= p < |lanes| => v[lanes[p]])
  }

  lemma CompactEntryAt(mask: nat, p: nat, padding: byte)
    requires p < 8
    ensures var lanes := SetLanes(mask, 8);
            p < |lanes| ==> CompactEntry(mask, 2 * p, padding) == 2 * lanes[p] && CompactEntry(mask, 2 * p + 1, padding) == 2 * lanes[p] + 1
    ensures p >= |SetLanes(mask, 8)| ==> CompactEntry(mask, 2 * p, padding) == padding == CompactEntry(mask, 2 * p + 1, padding)
  {
    hide SetLanes;
    EvenAndOdd(p);
  }

  lemma ShuffledLane(simd: Simd, v: Lanes, index: Bytes16, p: nat, l: nat)
    requires p < 8 && l < 8
    requires index[2 * p] == 2 * l && index[2 * p + 1] == 2 * l + 1
    ensures LanesOf(Shuffle(simd, BytesOfLanes(v), index))[p] == v[l]
  {
    EvenAndOdd(l);
    var data := BytesOfLanes(v);
    assert data[2 * l] == LaneByte(v[l], 0) && data[2 * l + 1] == LaneByte(v[l], 1);
    assert LaneAt(Shuffle(simd, data, index), p) == v[l];
  }

  lemma ZeroedLane(simd: Simd, data: Bytes16, index: Bytes16, p: nat)
    requires p < 8 && index[2 * p] == index[2 * p + 1] == Padding(simd)
    ensures LanesOf(Shuffle(simd, data, index))[p] == 0
  {
    assert LaneAt(Shuffle(simd, data, index), p) == 0;
  }

  /** Shuffling by a table row packs the selected lanes to the front, in order, and
      zeroes the rest: for every mask and either instruction set. */
  lemma CompactionPacks(simd: Simd, v: Lanes, mask: nat, p: nat)
    requires p < 8
    ensures LanesOf(Shuffle(simd, BytesOfLanes(v), CompactRow(mask, Padding(simd))))[p]
         == if p < |Selected(v, mask)| then Selected(v, mask)[p] else 0
  {
    CompactEntryAt(mask, p, Padding(simd));
    hide SetLanes, CompactEntry, Shuffle, BytesOfLanes, LanesOf;
    if p < |SetLanes(mask, 8)| {
      ShuffledLane(simd, v, CompactRow(mask, Padding(simd)), p, SetLanes(mask, 8)[p]);
    } else {
      ZeroedLane(simd, BytesOfLanes(v), CompactRow(mask, Padding(simd)), p);
    }
  }

  // ---- candidates ----

  /** The byte pairs of the eight candidates of a 12-byte group. */
  const GATHER: Bytes16 := [0, 1, 1, 2, 3, 4, 4, 5, 6, 7, 7, 8, 9, 10, 10, 11]

  lemma LowTwelve(pair: nat)
    ensures And(pair, 0x0FFF) == pair % 4096
  {
    assert Pow2(12) == 0x1000;
    AndMask(pair, 12);
  }

  lemma HighTwelve(pair: nat)
    requires pair < 0x1_0000
    ensures And(pair / 16, 0x0FFF) == pair / 16
  {
    hide And;
    var high := pair / 16;
    assert high < 4096;
    LowTwelve(high);
  }

  /** The eight 12-bit candidates: AVX2 blends masked and shifted copies, NEON shifts
      each lane and masks all. */
  function CandidateLane(simd: Simd, pair: nat, i: nat): (d: nat)
    requires pair < 0x1_0000 && i < 8
    ensures d == if i % 2 == 0 then pair % 4096 else pair / 16
  {
    LowTwelve(pair);
    HighTwelve(pair);
    hide And;
    if simd.Avx2? then (if i % 2 == 1 then pair / 16 else And(pair, 0x0FFF))
    else And(if i % 2 == 1 then pair / 16 else pair, 0x0FFF)
  }

  function Candidates(simd: Simd, data: Bytes16): Lanes {
    var pairs := LanesOf(Shuffle(simd, data, GATHER));
    seq(8, i requires 0 <= i < 8 => CandidateLane(simd, pairs[i], i))
  }

  lemma GatherIndex(g: nat)
    requires g < 4
    ensures GATHER[4 * g] == 3 * g && GATHER[4 * g + 1] == 3 * g + 1
    ensures GATHER[4 * g + 2] == 3 * g + 1 && GATHER[4 * g + 3] == 3 * g + 2
  {
  }

  lemma GatheredPairs(simd: Simd, data: Bytes16, g: nat)
    requires g < 4
    ensures LanesOf(Shuffle(simd, data, GATHER))[2 * g] == PairOf(data[3 * g], data[3 * g + 1])
    ensures LanesOf(Shuffle(simd, data, GATHER))[2 * g + 1] == PairOf(data[3 * g + 1], data[3 * g + 2])
  {
    GatherIndex(g);
    hide PairOf, GATHER;
    var r := Shuffle(simd, data, GATHER);
    assert LanesOf(r)[2 * g] == LaneAt(r, 2 * g) && LanesOf(r)[2 * g + 1] == LaneAt(r, 2 * g + 1);
  }

  lemma TwelveBits(b0: byte, b1: byte)
    ensures PairOf(b0, b1) % 4096 == b0 + 256 * (b1 % 16) && PairOf(b0, b1) / 16 == b0 / 16 + 16 * b1
  {
  }

  /** Lane `i` is candidate `i` of the stream order. */
  lemma CandidatesInOrder(simd: Simd, data: Bytes16, g: nat)
    requires g < 4
    ensures Candidates(simd, data)[2 * g] == LowCandidate(data[3 * g], data[3 * g + 1])
    ensures Candidates(simd, data)[2 * g + 1] == HighCandidate(data[3 * g + 1], data[3 * g + 2])
  {
    GatheredPairs(simd, data, g);
    EvenAndOdd(g);
    hide Shuffle, LanesOf, GATHER, CandidateLane, LowCandidate, HighCandidate, PairOf;
    TwelveBits(data[3 * g], data[3 * g + 1]);
    TwelveBits(data[3 * g + 1], data[3 * g + 2]);
  }

  /** The acceptance mask: one bit per lane below q. AVX2 compares to all-ones lanes,
      packs them to bytes with signed saturation and collects the top bits; NEON narrows
      the comparison and sums the lanes' bit weights. */
  function AcceptMask(simd: Simd, v: Lanes): nat {
    if simd.Avx2? then Value(seq(8, i requires 0 <= i < 8 => SignBit(SaturateByte(if v[i] < 3329 then -1 else 0))), 1)
    else WeightSum(v, 8)
  }

  /** Signed saturation of a 16-bit lane to a byte, as two's complement. */
  function SaturateByte(x: i16): byte {
    var s: int := if x > 127 then 127 else if x < -128 then -128 else x;
    if s < 0 then s + 256 else s
  }

  function SignBit(b: byte): nat {
    b / 128
  }

  function WeightSum(v: Lanes, n: nat): nat
    requires n <= 8
  {
    if n == 0 then 0
    else WeightSum(v, n - 1) + And(if v[n - 1] < 3329 then 0xFF else 0, Pow2(n - 1))
  }

  /** The acceptance bits. */
  function AcceptBits(v: Lanes): seq<nat> {
    seq(8, i requires 0 <= i < 8 => if v[i] < 3329 then 1 else 0)
  }

  lemma {:induction false} WeightsAreBits(v: Lanes, n: nat)
    requires n <= 8
    ensures WeightSum(v, n) == Value(AcceptBits(v)[..n], 1)
  {
    if n > 0 {
      WeightsAreBits(v, n - 1);
      var bits := AcceptBits(v);
      assert bits[n - 1] == if v[n - 1] < 3329 then 1 else 0;
      hide Value, And, Pow2, AcceptBits;
      ByteMasksBit(n - 1);
      NextBit(bits, n);
    }
  }

  lemma NextBit(bits: seq<nat>, n: nat)
    requires 0 < n <= |bits|
    ensures Value(bits[..n], 1) == Value(bits[..n - 1], 1) + Pow2(n - 1) * bits[n - 1]
  {
    hide Value, Pow2;
    assert bits[..n] == bits[..n - 1] + [bits[n - 1]];
    ValueConcat(bits[..n - 1], [bits[n - 1]], 1);
    SingleBit(bits[n - 1]);
  }

  lemma SingleBit(b: nat)
    ensures Value([b], 1) == b
  {
  }

  lemma {:induction false} MaskOfBit(n: nat, k: nat)
    requires k < n
    ensures And(Pow2(n) - 1, Pow2(k)) == Pow2(k)
    decreases n
  {
    var m := Pow2(n - 1) - 1;
    assert (2 * m + 1) / 2 == m && (2 * m + 1) % 2 == 1 && Pow2(n) - 1 == 2 * m + 1;
    if k > 0 {
      MaskOfBit(n - 1, k - 1);
      var y := Pow2(k - 1);
      assert 2 * y / 2 == y && 2 * y % 2 == 0;
    } else {
      assert And(m, 0) == 0;
    }
  }

  lemma ByteMasksBit(k: nat)
    requires k < 8
    ensures And(0xFF, Pow2(k)) == Pow2(k) && And(0, Pow2(k)) == 0
  {
    MaskOfBit(8, k);
    assert Pow2(8) == 256;
  }

  /** Both instruction sets compute the number whose bit `i` says lane `i` is accepted. */
  lemma MaskIsBits(simd: Simd, v: Lanes)
    ensures AcceptMask(simd, v) == Value(AcceptBits(v), 1) < 256
    ensures forall i | 0 <= i < 8 :: Bit(AcceptMask(simd, v), i) == 1 <==> v[i] < 3329
  {
    var bits := AcceptBits(v);
    assert Digits(bits, 1);
    ValueBound(bits, 1);
    assert Pow2(8) == 256;
    if simd.Avx2? {
      assert seq(8, i requires 0 <= i < 8 => SignBit(SaturateByte(if v[i] < 3329 then -1 else 0))) == bits;
    } else {
      WeightsAreBits(v, 8);
      assert bits[..8] == bits;
    }
    forall i | 0 <= i < 8 ensures Bit(AcceptMask(simd, v), i) == 1 <==> v[i] < 3329 {
      BitOfValue(bits, 1, i, 0);
    }
  }

  // ---- the kernel ----

  /** What the first `n` lanes contribute. */
  function KeptLanes(v: Lanes, n: nat): seq<i16>
    requires n <= 8 && forall i | 0 <= i < 8 :: v[i] < 4096
  {
    if n == 0 then [] else KeptLanes(v, n - 1) + Keep(v[n - 1])
  }

  /** Selecting by the acceptance mask keeps exactly the accepted lanes, in order. */
  lemma {:induction false} SelectedAreKept(v: Lanes, mask: nat, n: nat)
    requires n <= 8 && forall i | 0 <= i < 8 :: v[i] < 4096
    requires forall i | 0 <= i < 8 :: Bit(mask, i) == 1 <==> v[i] < 3329
    ensures |KeptLanes(v, n)| == |SetLanes(mask, n)|
    ensures forall p | 0 <= p < |SetLanes(mask, n)| :: KeptLanes(v, n)[p] == v[SetLanes(mask, n)[p]]
  {
    if n > 0 {
      SelectedAreKept(v, mask, n - 1);
      hide Bit, Keep;
      assert Keep(v[n - 1]) == if Bit(mask, n - 1) == 1 then [v[n - 1]] else [];
    }
  }

  function CountOnes(mask: nat, n: nat): nat {
    if n == 0 then 0 else CountOnes(mask, n - 1) + Bit(mask, n - 1)
  }

  lemma {:induction false} OnesAreSetLanes(mask: nat, n: nat)
    ensures CountOnes(mask, n) == |SetLanes(mask, n)|
  {
    if n > 0 {
      OnesAreSetLanes(mask, n - 1);
    }
  }

  lemma KeptOfGroup(simd: Simd, data: Bytes16)
    ensures forall i | 0 <= i < 8 :: Candidates(simd, data)[i] < 4096
    ensures KeptLanes(Candidates(simd, data), 8) == Kept(data[..12])
  {
    hide Candidates, Kept, Keep, KeptLanes, KeptGroup;
    var v := Candidates(simd, data);
    LanesFitTwelveBits(simd, data);
    forall g | 0 <= g < 4
      ensures Keep(v[2 * g]) + Keep(v[2 * g + 1]) == KeptGroup(data[3 * g], data[3 * g + 1], data[3 * g + 2])
    {
      GroupOfLanes(simd, data, g);
    }
    KeptPrefix(v, data, 4);
  }

  lemma LanesFitTwelveBits(simd: Simd, data: Bytes16)
    ensures forall i | 0 <= i < 8 :: Candidates(simd, data)[i] < 4096
  {
    forall i | 0 <= i < 8 ensures Candidates(simd, data)[i] < 4096 {
      CandidatesInOrder(simd, data, i / 2);
    }
  }

  lemma KeptPair(v: Lanes, n: nat)
    requires n + 2 <= 8 && forall i | 0 <= i < 8 :: v[i] < 4096
    ensures KeptLanes(v, n + 2) == KeptLanes(v, n) + (Keep(v[n]) + Keep(v[n + 1]))
  {
    hide Keep;
    assert KeptLanes(v, n + 2) == KeptLanes(v, n + 1) + Keep(v[n + 1]);
  }

  lemma GroupOfLanes(simd: Simd, data: Bytes16, g: nat)
    requires g < 4 && forall i | 0 <= i < 8 :: Candidates(simd, data)[i] < 4096
    ensures var v := Candidates(simd, data);
            Keep(v[2 * g]) + Keep(v[2 * g + 1]) == KeptGroup(data[3 * g], data[3 * g + 1], data[3 * g + 2])
  {
    CandidatesInOrder(simd, data, g);
    hide Candidates, Keep, LowCandidate, HighCandidate;
  }

  /** The lanes of `v` are the candidates of the groups of `data`. */
  predicate IsGroupwise(v: Lanes, data: Bytes16) {
    && (forall i | 0 <= i < 8 :: v[i] < 4096)
    && forall g | 0 <= g < 4 :: Keep(v[2 * g]) + Keep(v[2 * g + 1]) == KeptGroup(data[3 * g], data[3 * g + 1], data[3 * g + 2])
  }

  lemma {:induction false} KeptPrefix(v: Lanes, data: Bytes16, g: nat)
    requires g <= 4 && IsGroupwise(v, data)
    ensures KeptLanes(v, 2 * g) == Kept(data[..3 * g])
  {
    if g > 0 {
      KeptPrefix(v, data, g - 1);
      hide Kept, Keep, KeptLanes, KeptGroup, IsGroupwise;
      NextKept(v, data, g - 1, 2 * g, 3 * g);
    }
  }

  lemma NextKept(v: Lanes, data: Bytes16, h: nat, lanes: nat, bytes: nat)
    requires h < 4 && IsGroupwise(v, data) && lanes == 2 * h + 2 && bytes == 3 * h + 3
    requires KeptLanes(v, 2 * h) == Kept(data[..3 * h])
    ensures KeptLanes(v, lanes) == Kept(data[..bytes])
  {
    hide Kept, Keep, KeptLanes, KeptGroup;
    KeptPair(v, 2 * h);
    KeptGroups(data, h);
    assert Keep(v[2 * h]) + Keep(v[2 * h + 1]) == KeptGroup(data[3 * h], data[3 * h + 1], data[3 * h + 2]);
  }

  /** The 16-byte load at `start`, zero-padded past a 12-byte tail. */
  function Window(bytes: seq<byte>, start: nat): (data: Bytes16)
    requires start + 12 <= |bytes|
    ensures data[..12] == bytes[start..start + 12]
  {
    if start + 16 <= |bytes| then bytes[start..start + 16] else bytes[start..start + 12] + [0, 0, 0, 0]
  }

  /** The lanes one group stores, and how many of them count. */
  function PackedGroup(simd: Simd, data: Bytes16): Lanes {
    var v := Candidates(simd, data);
    LanesOf(Shuffle(simd, BytesOfLanes(v), CompactRow(AcceptMask(simd, v), Padding(simd))))
  }

  function GroupCount(simd: Simd, data: Bytes16): nat {
    CountOnes(AcceptMask(simd, Candidates(simd, data)), 8)
  }

  /** One group stores its accepted candidates in order, then zeroes. */
  lemma GroupStores(simd: Simd, data: Bytes16)
    ensures GroupCount(simd, data) == |Kept(data[..12])| <= 8
    ensures forall p | 0 <= p < 8 :: PackedGroup(simd, data)[p] < 4096
    ensures forall p | 0 <= p < |Kept(data[..12])| :: PackedGroup(simd, data)[p] == Kept(data[..12])[p]
  {
    var v := Candidates(simd, data);
    var mask := AcceptMask(simd, v);
    LanesFitTwelveBits(simd, data);
    KeptOfGroup(simd, data);
    MaskIsBits(simd, v);
    SelectedAreKept(v, mask, 8);
    OnesAreSetLanes(mask, 8);
    hide Kept, AcceptMask, Candidates, SetLanes, CountOnes, KeptLanes, LanesOf, Shuffle, BytesOfLanes, CompactRow, Bit;
    forall p | 0 <= p < 8
      ensures PackedGroup(simd, data)[p] < 4096
      ensures p < |Kept(data[..12])| ==> PackedGroup(simd, data)[p] == Kept(data[..12])[p]
    {
      CompactionPacks(simd, v, mask, p);
    }
  }

  lemma KeptByTwelves(bytes: seq<byte>, start: nat, g: nat)
    requires start == 12 * g && start + 12 <= |bytes|
    ensures Kept(bytes[..start + 12]) == Kept(bytes[..start]) + Kept(bytes[start..start + 12])
  {
    assert bytes[..start + 12] == bytes[..start] + bytes[start..start + 12];
    KeptConcat(bytes[..start], bytes[start..start + 12], 4 * g);
  }

  /** The vector kernel: whole groups of eight candidates, spilling at most eight
      elements past the 256th. It agrees with the scalar kernel on the first 256. */
  method RejectVector(simd: Simd, bytes: seq<byte>, out: array<i16>, count: nat, ghost content: seq<i16>) returns (c: nat)
    requires |bytes| % 12 == 0 && Holds(out, count, content)
    modifies out
    ensures c <= 256 && Holds(out, c, Fill(content, Kept(bytes)))
  {
    hide Kept, PackedGroup, GroupCount, Fill;
    c := count;
    var group: nat := 0;
    assert bytes[..0] == [];
    NothingKept();
    while group < |bytes| / 12 && c < 256
      invariant group <= |bytes| / 12 && c < 264
      invariant c == |content| + |Kept(bytes[..12 * group])|
      invariant out[..c] == content + Kept(bytes[..12 * group])
    {
      var start := 12 * group;
      var data := Window(bytes, start);
      GroupStores(simd, data);
      KeptByTwelves(bytes, start, group);
      var packed := PackedGroup(simd, data);
      var words: seq<i16> := packed;
      Store(out, c, words);
      c := c + GroupCount(simd, data);
      group := group + 1;
    }
    if c > 256 { c := 256; }
    ClampedFill(bytes, group, content);
  }

  lemma NothingKept()
    ensures Kept([]) == []
  {
  }

  lemma ClampedFill(bytes: seq<byte>, group: nat, content: seq<i16>)
    requires |bytes| % 12 == 0 && group <= |bytes| / 12 && |content| <= 256
    requires group == |bytes| / 12 || |content| + |Kept(bytes[..12 * group])| >= 256
    ensures var all := content + Kept(bytes[..12 * group]);
            Fill(content, Kept(bytes)) == if |all| > 256 then all[..256] else all
  {
    if group == |bytes| / 12 {
      assert bytes[..12 * group] == bytes;
    } else {
      FullStays(bytes, 4 * group, content);
    }
  }
}
