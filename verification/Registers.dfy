/** Vector stores into arrays: what one store does, and loops of stores that fill an
    array, or its two halves side by side, from the front. */
module Registers {
  import opened Words

  /** Sixteen-bit lanes of a vector register. */
  function Width(simd: Simd): nat {
    if simd.Avx2? then 16 else 8
  }

  /** The elements after a vector store at `at`. */
  function Stored<T>(s: seq<T>, at: nat, v: seq<T>): (r: seq<T>)
    requires at + |v| <= |s|
    ensures |r| == |s|
  {
    s[..at] + v + s[at + |v|..]
  }

  lemma StoredAt<T>(s: seq<T>, at: nat, v: seq<T>, j: nat)
    requires at + |v| <= |s| && j < |s|
    ensures Stored(s, at, v)[j] == if at <= j < at + |v| then v[j - at] else s[j]
  {
  }

  /** The vector store at `c[at]`. */
  method Store<T>(c: array<T>, at: nat, v: seq<T>)
    requires at + |v| <= c.Length
    modifies c
    ensures forall j | 0 <= j < |v| :: c[at + j] == v[j]
    ensures forall j | 0 <= j < c.Length && !(at <= j < at + |v|) :: c[j] == old(c[j])
    ensures c[..] == Stored(old(c[..]), at, v)
  {
    var i: nat := 0;
    while i < |v|
      invariant i <= |v|
      invariant forall j | 0 <= j < i :: c[at + j] == v[j]
      invariant forall j | 0 <= j < c.Length && !(at <= j < at + i) :: c[j] == old(c[j])
    {
      c[at + i] := v[i];
      i := i + 1;
    }
    assert c[..] == Stored(old(c[..]), at, v);
  }

  // ---- filling an array ----

  /** The first `n` elements of `fin`, the rest of `was`. */
  function Progress<T>(was: seq<T>, fin: seq<T>, n: nat): (r: seq<T>)
    requires |was| == |fin| && n <= |fin|
    ensures |r| == |fin|
    ensures n == 0 ==> r == was
    ensures n == |fin| ==> r == fin
  {
    fin[..n] + was[n..]
  }

  /** A store that extends the finished prefix. */
  method StoreNext<T>(c: array<T>, at: nat, v: seq<T>, ghost was: seq<T>, ghost fin: seq<T>)
    requires |was| == |fin| == c.Length && at + |v| <= c.Length
    requires c[..] == Progress(was, fin, at) && v == fin[at..at + |v|]
    modifies c
    ensures c[..] == Progress(was, fin, at + |v|)
  {
    hide Stored, Progress;
    ProgressStored(was, fin, at, |v|);
    Store(c, at, v);
  }

  lemma ProgressStored<T>(was: seq<T>, fin: seq<T>, at: nat, w: nat)
    requires |was| == |fin| && at + w <= |fin|
    ensures Stored(Progress(was, fin, at), at, fin[at..at + w]) == Progress(was, fin, at + w)
  {
    assert fin[..at + w] == fin[..at] + fin[at..at + w];
  }

  lemma ProgressTail<T>(was: seq<T>, fin: seq<T>, at: nat, w: nat)
    requires |was| == |fin| && at + w <= |fin|
    ensures Progress(was, fin, at)[at..at + w] == was[at..at + w]
  {
  }

  // ---- filling two halves side by side ----

  /** The first `n` elements of both halves of `fin`, the rest of `was`. */
  function HalvesProgress<T>(was: seq<T>, fin: seq<T>, n: nat): (r: seq<T>)
    requires |was| == |fin| == 256 && n <= 128
    ensures |r| == 256
    ensures n == 0 ==> r == was
    ensures n == 128 ==> r == fin
  {
    fin[..n] + was[n..128] + fin[128..128 + n] + was[128 + n..]
  }

  lemma HalvesStored<T>(was: seq<T>, fin: seq<T>, at: nat, w: nat)
    requires |was| == |fin| == 256 && at + w <= 128
    ensures Stored(Stored(HalvesProgress(was, fin, at), at, fin[at..at + w]), 128 + at, fin[128 + at..128 + at + w])
         == HalvesProgress(was, fin, at + w)
  {
    var one := Stored(HalvesProgress(was, fin, at), at, fin[at..at + w]);
    assert one == fin[..at + w] + was[at + w..128] + fin[128..128 + at] + was[128 + at..];
  }

  /** Two stores that extend the finished prefixes of the halves. */
  method StoreHalves<T>(c: array<T>, at: nat, v0: seq<T>, v1: seq<T>, ghost was: seq<T>, ghost fin: seq<T>)
    requires c.Length == |was| == |fin| == 256 && |v0| == |v1| && at + |v0| <= 128
    requires c[..] == HalvesProgress(was, fin, at)
    requires v0 == fin[at..at + |v0|] && v1 == fin[128 + at..128 + at + |v1|]
    modifies c
    ensures c[..] == HalvesProgress(was, fin, at + |v0|)
  {
    hide Stored, HalvesProgress;
    HalvesStored(was, fin, at, |v0|);
    Store(c, at, v0);
    Store(c, 128 + at, v1);
  }
}
