/** `sample_ntt`, its four-lane form and the expansion of the public matrix
    (`src/sampling.rs`, `src/PKE.rs`). */
module MatrixSampling {
  import opened Words
  import opened Functions
  import opened BaseMul
  import opened Rejection
  import opened VectorReject
  import Kernels

  /** The rejection kernel the build selects. */
  method Reject(backend: Backend, bytes: seq<byte>, out: array<i16>, count: nat, ghost content: seq<i16>) returns (c: nat)
    requires |bytes| % 12 == 0 && Holds(out, count, content)
    modifies out
    ensures c <= 256 && Holds(out, c, Fill(content, Kept(bytes)))
  {
    match backend
    case Generic => c := RejectScalar(bytes, out, count, content);
    case Vector(simd, _) => c := RejectVector(simd, bytes, out, count, content);
  }

  const RATE: nat := 168
  const THREE_BLOCKS: nat := 504

  /** `SampleNTT` on one stream, a SHAKE128 block at a time. */
  method SampleNtt(backend: Backend, stream: Stream) returns (h: TqWords)
    requires Fills(stream)
    ensures h == SampledElement(stream)
  {
    hide LaneContent, FilledBy, FirstAccepted, Fills, Kept, Fill;
    ghost var enough := FillsWitness(stream);
    var buffer := new i16[264](_ => 0);
    var count: nat, block: nat := 0, 0;
    NothingYet(stream);
    while count < 256
      invariant buffer.Length == 264 && Holds(buffer, count, LaneContent(stream, 56 * block))
      decreases enough - 56 * block
    {
      StillShort(stream, 56 * block, enough);
      var bytes := Squeeze(stream, RATE * block, RATE);
      LaneAdvances(stream, 56 * block, 56);
      count := Reject(backend, bytes, buffer, count, LaneContent(stream, 56 * block));
      block := block + 1;
    }
    LaneDone(stream, 56 * block);
    var halves := Kernels.SplitNatural(backend, buffer[..256]);
    h := halves[..];
  }

  lemma NothingYet(stream: Stream)
    ensures LaneContent(stream, 0) == []
  {
  }

  /** A lane still short of 256 candidates has not read far enough. */
  lemma StillShort(stream: Stream, groups: nat, enough: nat)
    requires |LaneContent(stream, groups)| < 256 && FilledBy(stream, enough)
    ensures groups < enough
  {
    hide LaneContent, FilledBy, Fills, FirstAccepted;
    LaneDone(stream, groups);
    if enough <= groups {
      FilledLater(stream, enough, groups);
    }
  }

  /** The four rejection buffers are distinct. */
  ghost predicate Lanes4(buffers: seq<array<i16>>) {
    |buffers| == 4 && forall a, b | 0 <= a < b < 4 :: buffers[a] != buffers[b]
  }

  /** Every lane holds what its stream's first `groups` byte triples contribute. */
  ghost predicate LanesHold(buffers: seq<array<i16>>, counts: seq<nat>, streams: seq<Stream>, groups: nat)
    requires |buffers| == |counts| == |streams| == 4
    reads set l | 0 <= l < 4 :: buffers[l]
  {
    forall l | 0 <= l < 4 :: Holds(buffers[l], counts[l], LaneContent(streams[l], groups))
  }

  /** `reject_into`: one squeezed block for every lane; says whether all are full. */
  method RejectInto(backend: Backend, buffers: seq<array<i16>>, counts: seq<nat>, ghost streams: seq<Stream>, ghost groups: nat,
                    blocks: seq<seq<byte>>, more: nat) returns (newCounts: seq<nat>, done: bool)
    requires Lanes4(buffers) && |counts| == |streams| == |blocks| == 4 && LanesHold(buffers, counts, streams, groups)
    requires more % 4 == 0 && forall l | 0 <= l < 4 :: blocks[l] == Squeeze(streams[l], 3 * groups, 3 * more)
    modifies set l | 0 <= l < 4 :: buffers[l]
    ensures |newCounts| == 4 && LanesHold(buffers, newCounts, streams, groups + more)
    ensures done <==> forall l | 0 <= l < 4 :: newCounts[l] >= 256
  {
    hide LaneContent, Kept, Fill, Squeeze;
    newCounts := counts;
    var l: nat := 0;
    while l < 4
      invariant l <= 4 && |newCounts| == 4
      invariant forall m | 0 <= m < l :: Holds(buffers[m], newCounts[m], LaneContent(streams[m], groups + more))
      invariant forall m | l <= m < 4 :: Holds(buffers[m], newCounts[m], LaneContent(streams[m], groups))
    {
      LaneAdvances(streams[l], groups, more);
      var c := Reject(backend, blocks[l], buffers[l], newCounts[l], LaneContent(streams[l], groups));
      newCounts := newCounts[l := c];
      l := l + 1;
    }
    done := newCounts[0] >= 256 && newCounts[1] >= 256 && newCounts[2] >= 256 && newCounts[3] >= 256;
  }

  /** A stream reading that is long enough for every lane. */
  lemma EnoughForAll(streams: seq<Stream>) returns (enough: nat)
    requires |streams| == 4 && forall l | 0 <= l < 4 :: Fills(streams[l])
    ensures forall l | 0 <= l < 4 :: FilledBy(streams[l], enough)
  {
    hide FilledBy, Fills;
    var a := FillsWitness(streams[0]);
    var b := FillsWitness(streams[1]);
    var c := FillsWitness(streams[2]);
    var d := FillsWitness(streams[3]);
    enough := a + b + c + d;
    FilledLater(streams[0], a, enough);
    FilledLater(streams[1], b, enough);
    FilledLater(streams[2], c, enough);
    FilledLater(streams[3], d, enough);
  }

  /** The streams of a four-lane XOF. */
  function Streams(p: Primitives, rho: Bytes32, indices: seq<(byte, byte)>): (s: seq<Stream>)
    requires |indices| == 4
    ensures |s| == 4 && forall l | 0 <= l < 4 :: s[l] == Xof(p, rho, indices[l].0, indices[l].1)
  {
    seq(4, l requires 0 <= l < 4 => Xof(p, rho, indices[l].0, indices[l].1))
  }

  function Blocks(streams: seq<Stream>, from: nat, n: nat): (b: seq<seq<byte>>)
    requires |streams| == 4
    ensures |b| == 4 && forall l | 0 <= l < 4 :: b[l] == Squeeze(streams[l], from, n)
  {
    seq(4, l requires 0 <= l < 4 => Squeeze(streams[l], from, n))
  }

  /** Batched `SampleNTT`: three blocks, then one at a time until every lane is full.
      Each lane is what `SampleNtt` gives on its own stream. */
  method SampleNttX4(backend: Backend, p: Primitives, rho: Bytes32, indices: seq<(byte, byte)>) returns (hs: seq<TqWords>)
    requires |indices| == 4 && forall l | 0 <= l < 4 :: Fills(Xof(p, rho, indices[l].0, indices[l].1))
    ensures |hs| == 4 && forall l | 0 <= l < 4 :: hs[l] == SampledElement(Xof(p, rho, indices[l].0, indices[l].1))
  {
    hide LaneContent, FilledBy, FirstAccepted, Fills, Kept, Fill, Xof, Squeeze, LanesHold, Holds, Split;
    var streams := Streams(p, rho, indices);
    ghost var enough := EnoughForAll(streams);
    var b0, b1 := new i16[264](_ => 0), new i16[264](_ => 0);
    var b2, b3 := new i16[264](_ => 0), new i16[264](_ => 0);
    var buffers := [b0, b1, b2, b3];
    var counts: seq<nat> := [0, 0, 0, 0];
    LanesStart(buffers, counts, streams);
    var blocks := Blocks(streams, 0, THREE_BLOCKS);
    var done: bool;
    counts, done := RejectInto(backend, buffers, counts, streams, 0, blocks, 168);
    ghost var groups: nat := 168;
    var position: nat := THREE_BLOCKS;
    while !done
      invariant |counts| == 4 && LanesHold(buffers, counts, streams, groups) && position == 3 * groups
      invariant done <==> forall l | 0 <= l < 4 :: counts[l] >= 256
      decreases enough - groups, !done
    {
      ghost var lane: nat :| lane < 4 && counts[lane] < 256;
      LaneShort(buffers, counts, streams, groups, lane, enough);
      blocks := Blocks(streams, position, RATE);
      counts, done := RejectInto(backend, buffers, counts, streams, groups, blocks, 56);
      position := position + RATE;
      groups := groups + 56;
    }
    LanesFull(buffers, counts, streams, groups);
    hs := Halves(backend, buffers, streams);
  }

  method Halves(backend: Backend, buffers: seq<array<i16>>, ghost streams: seq<Stream>) returns (hs: seq<TqWords>)
    requires |buffers| == |streams| == 4
    requires forall l | 0 <= l < 4 :: buffers[l].Length == 264 && Fills(streams[l]) && buffers[l][..256] == FirstAccepted(streams[l])
    ensures |hs| == 4 && forall l | 0 <= l < 4 :: hs[l] == SampledElement(streams[l])
  {
    hide Split, Fills, FirstAccepted, SampledElement;
    hs := [];
    while |hs| < 4
      invariant |hs| <= 4 && forall l | 0 <= l < |hs| :: hs[l] == Split(buffers[l][..256])
    {
      var halves := Kernels.SplitNatural(backend, buffers[|hs|][..256]);
      hs := hs + [halves[..]];
    }
    LanesSampled(buffers, streams, hs);
  }

  lemma LanesStart(buffers: seq<array<i16>>, counts: seq<nat>, streams: seq<Stream>)
    requires |buffers| == |streams| == 4 && counts == [0, 0, 0, 0]
    requires forall l | 0 <= l < 4 :: buffers[l].Length == 264
    ensures LanesHold(buffers, counts, streams, 0)
  {
    hide LaneContent;
    forall l | 0 <= l < 4 ensures Holds(buffers[l], counts[l], LaneContent(streams[l], 0)) {
      NothingYet(streams[l]);
    }
  }

  lemma LaneShort(buffers: seq<array<i16>>, counts: seq<nat>, streams: seq<Stream>, groups: nat, l: nat, enough: nat)
    requires |buffers| == |counts| == |streams| == 4 && LanesHold(buffers, counts, streams, groups)
    requires l < 4 && counts[l] < 256 && FilledBy(streams[l], enough)
    ensures groups < enough
  {
    hide LaneContent, FilledBy;
    assert Holds(buffers[l], counts[l], LaneContent(streams[l], groups));
    StillShort(streams[l], groups, enough);
  }

  lemma LanesFull(buffers: seq<array<i16>>, counts: seq<nat>, streams: seq<Stream>, groups: nat)
    requires |buffers| == |counts| == |streams| == 4 && LanesHold(buffers, counts, streams, groups)
    requires forall l | 0 <= l < 4 :: counts[l] >= 256
    ensures forall l | 0 <= l < 4 :: buffers[l].Length == 264 && Fills(streams[l]) && buffers[l][..256] == FirstAccepted(streams[l])
  {
    hide LaneContent, Fills, FirstAccepted;
    forall l | 0 <= l < 4
      ensures buffers[l].Length == 264 && Fills(streams[l]) && buffers[l][..256] == FirstAccepted(streams[l])
    {
      LaneDone(streams[l], groups);
      assert Holds(buffers[l], counts[l], LaneContent(streams[l], groups));
    }
  }

  lemma LanesSampled(buffers: seq<array<i16>>, streams: seq<Stream>, hs: seq<TqWords>)
    requires |buffers| == |streams| == |hs| == 4
    requires forall l | 0 <= l < 4 :: buffers[l].Length == 264 && Fills(streams[l]) && buffers[l][..256] == FirstAccepted(streams[l])
    requires forall l | 0 <= l < 4 :: hs[l] == Split(buffers[l][..256])
    ensures forall l | 0 <= l < 4 :: hs[l] == SampledElement(streams[l])
  {
    hide FirstAccepted, Split, Fills;
  }

  // ---- matrix expansion ----

  /** The XOF pair entry number `n` of the row-major order is sampled from. */
  function EntryIndex(k: nat, n: nat): (pair: (byte, byte))
    requires 1 <= k <= 4 && n < 16
  {
    (n % k, n / k)
  }

  /** Every stream the batches read, over-sampled lanes included, yields 256 candidates. */
  ghost predicate ExpandTerminates(p: Primitives, rho: Bytes32, k: nat)
    requires 1 <= k <= 4
  {
    forall n | 0 <= n < (k * k + 3) / 4 * 4 :: EntryFills(p, rho, k, n)
  }

  ghost predicate EntryFills(p: Primitives, rho: Bytes32, k: nat, n: nat)
    requires 1 <= k <= 4 && n < 16
  {
    Fills(Xof(p, rho, EntryIndex(k, n).0, EntryIndex(k, n).1))
  }

  /** Entry number `n`. */
  ghost function Entry(p: Primitives, rho: Bytes32, k: nat, n: nat): TqWords
    requires 1 <= k <= 4 && n < 16 && EntryFills(p, rho, k, n)
  {
    SampledElement(Xof(p, rho, EntryIndex(k, n).0, EntryIndex(k, n).1))
  }

  /** The public matrix: row i, column j is `SampleNTT(XOF(rho, j, i))`. */
  ghost function PublicMatrix(p: Primitives, rho: Bytes32, k: nat): (a: seq<seq<TqWords>>)
    requires 1 <= k <= 4 && ExpandTerminates(p, rho, k)
    ensures |a| == k && forall i | 0 <= i < k :: |a[i]| == k
  {
    seq(k, i requires 0 <= i < k => MatrixRow(p, rho, k, i))
  }

  ghost function MatrixRow(p: Primitives, rho: Bytes32, k: nat, i: nat): (row: seq<TqWords>)
    requires 1 <= k <= 4 && ExpandTerminates(p, rho, k) && i < k
    ensures |row| == k
  {
    seq(k, j requires 0 <= j < k => MatrixCell(p, rho, k, i, j))
  }

  ghost function MatrixCell(p: Primitives, rho: Bytes32, k: nat, i: nat, j: nat): TqWords
    requires 1 <= k <= 4 && ExpandTerminates(p, rho, k) && i < k && j < k
  {
    CellFills(p, rho, k, i, j);
    SampledElement(Xof(p, rho, j, i))
  }

  lemma EntryOfCell(k: nat, i: nat, j: nat)
    requires 1 <= k <= 4 && i < k && j < k
    ensures i * k + j < k * k <= 16 && EntryIndex(k, i * k + j) == (j, i)
  {
    if k == 1 {} else if k == 2 {} else if k == 3 {} else {}
  }

  lemma CellFills(p: Primitives, rho: Bytes32, k: nat, i: nat, j: nat)
    requires 1 <= k <= 4 && ExpandTerminates(p, rho, k) && i < k && j < k
    ensures Fills(Xof(p, rho, j, i))
  {
    hide Fills, Xof;
    EntryOfCell(k, i, j);
    BatchCovers(k);
    assert EntryFills(p, rho, k, i * k + j);
  }

  lemma BatchCovers(k: nat)
    requires 1 <= k <= 4
    ensures k * k <= (k * k + 3) / 4 * 4 <= 16
  {
    if k == 1 {} else if k == 2 {} else if k == 3 {} else {}
  }

  /** `h` is entry number `n`. */
  ghost predicate IsEntry(p: Primitives, rho: Bytes32, k: nat, n: int, h: TqWords)
    requires 1 <= k <= 4
  {
    0 <= n < 16 && EntryFills(p, rho, k, n) && h == Entry(p, rho, k, n)
  }

  /** The entries of the matrix in row-major order, sampled four at a time: the
      closure of `TqMatrix::expand`. */
  class MatrixEntries {
    const backend: Backend
    const primitives: Primitives
    const rho: Bytes32
    const k: nat
    var next: nat
    var batch: seq<TqWords>
    var taken: nat

    ghost predicate Valid()
      reads this
    {
      && 1 <= k <= 4 && ExpandTerminates(primitives, rho, k)
      && taken <= 4 && |batch| == 4 && next % 4 == 0 && next <= (k * k + 3) / 4 * 4
      && (next == 0 ==> taken == 4)
      && forall l | taken <= l < 4 :: IsEntry(primitives, rho, k, next - 4 + l, batch[l])
    }

    /** The number of the entry the next call returns. */
    ghost function Position(): int
      reads this
    {
      next - 4 + taken
    }

    constructor (backend: Backend, p: Primitives, rho: Bytes32, k: nat)
      requires 1 <= k <= 4 && ExpandTerminates(p, rho, k)
      ensures Valid() && Position() == 0
      ensures this.backend == backend && primitives == p && this.rho == rho && this.k == k
    {
      this.backend, primitives, this.rho, this.k := backend, p, rho, k;
      next, taken := 0, 4;
      var zero: TqWords := seq(256, i => 0);
      batch := [zero, zero, zero, zero];
    }

    method Next() returns (h: TqWords)
      requires Valid() && Position() < k * k
      modifies this
      ensures Valid() && Position() == old(Position()) + 1
      ensures 0 <= old(Position()) < 16 && EntryFills(primitives, rho, k, old(Position()))
      ensures h == Entry(primitives, rho, k, old(Position()))
    {
      hide Entry, EntryFills, ExpandTerminates;
      BatchCovers(k);
      if taken == 4 {
        Refill();
      }
      h := batch[taken];
      taken := taken + 1;
    }

    /** Samples the next four entries. */
    method Refill()
      requires Valid() && taken == 4 && next < k * k
      modifies this
      ensures Valid() && taken == 0 && next == old(next) + 4
    {
      hide Entry, EntryFills, Fills, Xof, ExpandTerminates, BatchIndices, SampledElement;
      BatchCovers(k);
      NextBatch(k, next);
      EntriesFill(primitives, rho, k, next);
      batch := SampleNttX4(backend, primitives, rho, BatchIndices(k, next));
      EntriesAre(primitives, rho, k, next, batch);
      taken := 0;
      next := next + 4;
    }
  }

  lemma NextBatch(k: nat, next: nat)
    requires 1 <= k <= 4 && next % 4 == 0 && next < k * k
    ensures next + 4 <= (k * k + 3) / 4 * 4
  {
    if k == 1 {} else if k == 2 {} else if k == 3 {} else {}
  }

  /** The pairs of the batch starting at entry `base`. */
  function BatchIndices(k: nat, base: nat): (indices: seq<(byte, byte)>)
    requires 1 <= k <= 4 && base + 4 <= 16
    ensures |indices| == 4
  {
    seq(4, lane requires 0 <= lane < 4 => EntryIndex(k, base + lane))
  }

  ghost predicate BatchFills(p: Primitives, rho: Bytes32, k: nat, base: nat)
    requires 1 <= k <= 4 && base + 4 <= 16
  {
    forall l | 0 <= l < 4 :: Fills(Xof(p, rho, BatchIndices(k, base)[l].0, BatchIndices(k, base)[l].1))
  }

  lemma EntriesFill(p: Primitives, rho: Bytes32, k: nat, base: nat)
    requires 1 <= k <= 4 && ExpandTerminates(p, rho, k) && base + 4 <= (k * k + 3) / 4 * 4
    ensures base + 4 <= 16 && BatchFills(p, rho, k, base)
  {
    hide Fills, Xof, EntryIndex;
    BatchCovers(k);
    forall l | 0 <= l < 4
      ensures Fills(Xof(p, rho, BatchIndices(k, base)[l].0, BatchIndices(k, base)[l].1))
    {
      assert EntryFills(p, rho, k, base + l);
    }
  }

  lemma EntriesAre(p: Primitives, rho: Bytes32, k: nat, base: nat, batch: seq<TqWords>)
    requires 1 <= k <= 4 && base + 4 <= 16 && |batch| == 4 && BatchFills(p, rho, k, base)
    requires forall l | 0 <= l < 4 :: batch[l] == SampledElement(Xof(p, rho, BatchIndices(k, base)[l].0, BatchIndices(k, base)[l].1))
    ensures forall l | 0 <= l < 4 :: EntryFills(p, rho, k, base + l) && batch[l] == Entry(p, rho, k, base + l)
  {
    hide Fills, Xof, SampledElement, BatchIndices, Entry, EntryFills, BatchFills;
    EntryOfLane(p, rho, k, base, 0, batch[0]);
    EntryOfLane(p, rho, k, base, 1, batch[1]);
    EntryOfLane(p, rho, k, base, 2, batch[2]);
    EntryOfLane(p, rho, k, base, 3, batch[3]);
  }

  lemma EntryOfLane(p: Primitives, rho: Bytes32, k: nat, base: nat, l: nat, h: TqWords)
    requires 1 <= k <= 4 && base + 4 <= 16 && BatchFills(p, rho, k, base) && l < 4
    requires h == SampledElement(Xof(p, rho, BatchIndices(k, base)[l].0, BatchIndices(k, base)[l].1))
    ensures EntryFills(p, rho, k, base + l) && h == Entry(p, rho, k, base + l)
  {
    hide Fills, Xof, SampledElement;
    assert BatchIndices(k, base)[l] == EntryIndex(k, base + l);
  }

  /** `TqMatrix::expand`. */
  method Expand(backend: Backend, p: Primitives, rho: Bytes32, k: nat) returns (a: seq<seq<TqWords>>)
    requires 1 <= k <= 4 && ExpandTerminates(p, rho, k)
    ensures a == PublicMatrix(p, rho, k)
    ensures |a| == k && forall i | 0 <= i < k :: |a[i]| == k
    ensures forall i, j | 0 <= i < k && 0 <= j < k ::
              Fills(p.shake128(rho + [j, i])) && a[i][j] == SampledElement(p.shake128(rho + [j, i]))
  {
    hide Entry, EntryFills, ExpandTerminates, MatrixRow, PublicMatrix;
    var entries := new MatrixEntries(backend, p, rho, k);
    a := [];
    while |a| < k
      invariant entries.Valid() && |a| <= k && entries.Position() == |a| * k
      invariant entries.k == k && entries.primitives == p && entries.rho == rho
      invariant forall i | 0 <= i < |a| :: a[i] == MatrixRow(p, rho, k, i)
    {
      var row := ExpandRow(entries, |a|);
      assert (|a| + 1) * k == |a| * k + k;
      a := a + [row];
    }
    MatrixComplete(p, rho, k, a);
    PublicMatrixIs(p, rho, k);
  }

  /** The next row of the matrix. */
  method ExpandRow(entries: MatrixEntries, i: nat) returns (row: seq<TqWords>)
    requires entries.Valid() && i < entries.k && entries.Position() == i * entries.k
    requires ExpandTerminates(entries.primitives, entries.rho, entries.k)
    modifies entries
    ensures entries.Valid() && entries.Position() == i * entries.k + entries.k
    ensures row == MatrixRow(entries.primitives, entries.rho, entries.k, i)
  {
    hide Entry, EntryFills, ExpandTerminates, MatrixCell, MatrixRow;
    row := [];
    while |row| < entries.k
      invariant entries.Valid() && |row| <= entries.k && entries.Position() == i * entries.k + |row|
      invariant forall j | 0 <= j < |row| :: row[j] == MatrixCell(entries.primitives, entries.rho, entries.k, i, j)
    {
      EntryOfCell(entries.k, i, |row|);
      var h := entries.Next();
      CellIsEntry(entries.primitives, entries.rho, entries.k, i, |row|);
      row := row + [h];
    }
    RowComplete(entries.primitives, entries.rho, entries.k, i, row);
  }

  /** Row i, column j of the public matrix is sampled from SHAKE128 of rho, j, i. */
  lemma PublicMatrixIs(p: Primitives, rho: Bytes32, k: nat)
    requires 1 <= k <= 4 && ExpandTerminates(p, rho, k)
    ensures forall i, j | 0 <= i < k && 0 <= j < k ::
              Fills(p.shake128(rho + [j, i])) && PublicMatrix(p, rho, k)[i][j] == SampledElement(p.shake128(rho + [j, i]))
  {
    hide Fills, SampledElement, ExpandTerminates;
    forall i, j | 0 <= i < k && 0 <= j < k
      ensures Fills(p.shake128(rho + [j, i])) && PublicMatrix(p, rho, k)[i][j] == SampledElement(p.shake128(rho + [j, i]))
    {
      CellFills(p, rho, k, i, j);
      assert PublicMatrix(p, rho, k)[i][j] == MatrixCell(p, rho, k, i, j);
    }
  }

  lemma RowComplete(p: Primitives, rho: Bytes32, k: nat, i: nat, row: seq<TqWords>)
    requires 1 <= k <= 4 && ExpandTerminates(p, rho, k) && i < k && |row| == k
    requires forall j | 0 <= j < k :: row[j] == MatrixCell(p, rho, k, i, j)
    ensures row == MatrixRow(p, rho, k, i)
  {
    hide MatrixCell, ExpandTerminates;
  }

  lemma MatrixComplete(p: Primitives, rho: Bytes32, k: nat, a: seq<seq<TqWords>>)
    requires 1 <= k <= 4 && ExpandTerminates(p, rho, k) && |a| == k
    requires forall i | 0 <= i < k :: a[i] == MatrixRow(p, rho, k, i)
    ensures a == PublicMatrix(p, rho, k)
  {
    hide MatrixRow, ExpandTerminates;
  }

  lemma CellIsEntry(p: Primitives, rho: Bytes32, k: nat, i: nat, j: nat)
    requires 1 <= k <= 4 && ExpandTerminates(p, rho, k) && i < k && j < k
    ensures i * k + j < 16 && EntryFills(p, rho, k, i * k + j)
    ensures MatrixCell(p, rho, k, i, j) == Entry(p, rho, k, i * k + j)
  {
    hide Fills, Xof, SampledElement;
    EntryOfCell(k, i, j);
    BatchCovers(k);
  }
}
