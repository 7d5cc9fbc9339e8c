/** Byte strings made of equal blocks, and the staging buffers they are copied into. */
module Blocks {
  import opened Words

  predicate AllSized(blocks: seq<seq<byte>>, size: nat) {
    forall i | 0 <= i < |blocks| :: |blocks[i]| == size
  }

  lemma BlockEnd(size: nat, i: nat)
    ensures size * (i + 1) == size * i + size
  {
  }

  lemma BlocksFit(size: nat, i: nat, n: nat)
    requires i < n
    ensures size * i + size == size * (i + 1) <= size * n
  {
  }

  function Flatten(blocks: seq<seq<byte>>, size: nat): (bytes: seq<byte>)
    requires AllSized(blocks, size)
    ensures |bytes| == size * |blocks|
    decreases |blocks|
  {
    if |blocks| == 0 then []
    else
      BlockEnd(size, |blocks| - 1);
      Flatten(blocks[..|blocks| - 1], size) + blocks[|blocks| - 1]
  }

  /** Block `i`. */
  function Block(bytes: seq<byte>, size: nat, i: nat): (block: seq<byte>)
    requires size * (i + 1) <= |bytes|
    ensures |block| == size
  {
    BlockEnd(size, i);
    bytes[size * i..size * (i + 1)]
  }

  /** The bytes from `from` up to `to`, for statements whose bounds are arithmetic. */
  function Slice(bytes: seq<byte>, from: int, to: int): (r: seq<byte>)
    ensures 0 <= from <= to <= |bytes| ==> r == bytes[from..to]
  {
    if 0 <= from <= to <= |bytes| then bytes[from..to] else []
  }

  /** Joined blocks stand one after another, each at its own place. */
  lemma FlattenSlice(blocks: seq<seq<byte>>, size: nat, i: nat)
    requires AllSized(blocks, size) && i < |blocks|
    ensures 0 <= size * i <= size * (i + 1) <= |Flatten(blocks, size)|
    ensures Slice(Flatten(blocks, size), size * i, size * (i + 1)) == blocks[i]
  {
    hide Flatten;
    BlocksFit(size, i, |blocks|);
    BlockOfFlatten(blocks, size, i);
  }

  /** The first `n` blocks: `chunks_exact`. */
  function Chunks(bytes: seq<byte>, size: nat, n: nat): (blocks: seq<seq<byte>>)
    requires size * n <= |bytes|
    ensures |blocks| == n && AllSized(blocks, size)
  {
    seq(n, i requires 0 <= i < n => BlocksFit(size, i, n); Block(bytes, size, i))
  }

  lemma {:induction false} BlockOfFlatten(blocks: seq<seq<byte>>, size: nat, i: nat)
    requires AllSized(blocks, size) && i < |blocks|
    ensures size * (i + 1) <= size * |blocks| && Block(Flatten(blocks, size), size, i) == blocks[i]
    decreases |blocks|
  {
    var n := |blocks| - 1;
    BlocksFit(size, i, |blocks|);
    BlockEnd(size, n);
    var head := Flatten(blocks[..n], size);
    if i == n {
      assert (head + blocks[n])[size * n..size * (n + 1)] == blocks[n];
    } else {
      BlocksFit(size, i, n);
      BlockOfFlatten(blocks[..n], size, i);
      assert (head + blocks[n])[size * i..size * (i + 1)] == head[size * i..size * (i + 1)];
    }
  }

  lemma ChunksOfFlatten(blocks: seq<seq<byte>>, size: nat)
    requires AllSized(blocks, size)
    ensures Chunks(Flatten(blocks, size), size, |blocks|) == blocks
  {
    hide Block, Flatten;
    forall i | 0 <= i < |blocks| ensures Chunks(Flatten(blocks, size), size, |blocks|)[i] == blocks[i] {
      BlockOfFlatten(blocks, size, i);
    }
  }

  lemma {:induction false} FlattenOfChunks(bytes: seq<byte>, size: nat, n: nat)
    requires size * n <= |bytes|
    ensures Flatten(Chunks(bytes, size, n), size) == bytes[..size * n]
    decreases n
  {
    if n > 0 {
      BlocksFit(size, n - 1, n);
      FlattenOfChunks(bytes, size, n - 1);
      hide Block;
      assert Chunks(bytes, size, n)[..n - 1] == Chunks(bytes, size, n - 1);
      assert Chunks(bytes, size, n)[n - 1] == Block(bytes, size, n - 1);
      LastBlock(bytes, size, n);
    }
  }

  lemma LastBlock(bytes: seq<byte>, size: nat, n: nat)
    requires n > 0 && size * n <= |bytes|
    ensures size * (n - 1) + size == size * n
    ensures bytes[..size * (n - 1)] + Block(bytes, size, n - 1) == bytes[..size * n]
  {
    BlockEnd(size, n - 1);
  }

  /** Copies `bytes` to `buffer[at..]`. */
  method CopyInto(buffer: array<byte>, at: nat, bytes: seq<byte>)
    requires at + |bytes| <= buffer.Length
    modifies buffer
    ensures buffer[at..at + |bytes|] == bytes
    ensures buffer[..at] == old(buffer[..at])
    ensures buffer[at + |bytes|..] == old(buffer[at + |bytes|..])
  {
    var i: nat := 0;
    while i < |bytes|
      invariant i <= |bytes|
      invariant buffer[at..at + i] == bytes[..i]
      invariant buffer[..at] == old(buffer[..at])
      invariant buffer[at + |bytes|..] == old(buffer[at + |bytes|..])
    {
      buffer[at + i] := bytes[i];
      i := i + 1;
      assert bytes[..i] == bytes[..i - 1] + [bytes[i - 1]];
    }
  }

  /** Block j is the bytes from size * j up to size * (j + 1). */
  lemma ChunkIsSlice(c: seq<byte>, split: nat, size: nat, n: nat, j: nat)
    requires split == size * n <= |c| && j < n
    ensures Chunks(c[..split], size, n)[j] == Slice(c, size * j, size * (j + 1))
  {
    BlocksFit(size, j, n);
    assert c[..split][size * j..size * (j + 1)] == c[size * j..size * (j + 1)];
  }
}
