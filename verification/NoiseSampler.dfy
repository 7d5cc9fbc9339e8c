/** `CbdSampler`: draws consecutive noise polynomials from batched PRF streams
    (`src/sampling.rs`). */
module NoiseSampler {
  import opened Words
  import opened Functions
  import opened Cbd

  /** The lanes of one batched PRF call: streams `b`, `b + 1`, ... of the seed. */
  function PrfBatch(p: Primitives, eta: nat, seed: Bytes32, b: byte, width: nat): (lanes: seq<seq<byte>>)
    ensures |lanes| == width
    ensures forall i | 0 <= i < width :: lanes[i] == Prf(p, eta, seed, WrapByte(b + i))
  {
    seq(width, i requires 0 <= i < width => Prf(p, eta, seed, WrapByte(b + i)))
  }

  /** The widest batch the remaining streams fill; three streams take four lanes. */
  function BatchWidth(remaining: nat): (width: nat)
    ensures width in {1, 2, 4} && width <= remaining + 1
  {
    if remaining <= 1 then 1 else if remaining == 2 then 2 else 4
  }

  class CbdSampler {
    const primitives: Primitives
    const eta: nat
    const seed: Bytes32
    var next: byte
    var remaining: byte
    var batch: seq<seq<byte>>
    var taken: nat
    // The stream the run starts at, the streams promised, and those drawn so far.
    ghost const first: byte
    ghost const count: byte
    ghost var drawn: nat
    // Lanes squeezed so far.
    ghost var squeezed: nat

    /** Every lane in hand is the stream its position says, and at most one lane
        beyond the promised streams is ever squeezed. */
    ghost predicate Valid()
      reads this
    {
      && IsEta(eta)
      && drawn <= count && remaining == count - drawn
      && taken <= |batch| && squeezed == drawn + (|batch| - taken)
      && squeezed <= count + 1
      && next == WrapByte(first + squeezed)
      && forall i | taken <= i < |batch| :: batch[i] == Prf(primitives, eta, seed, WrapByte(first + drawn + (i - taken)))
    }

    constructor (p: Primitives, eta: nat, seed: Bytes32, first: byte, count: byte)
      requires IsEta(eta)
      ensures Valid() && drawn == 0
      ensures this.primitives == p && this.eta == eta && this.seed == seed && this.first == first && this.count == count
    {
      var lanes := PrfBatch(p, eta, seed, first, BatchWidth(count));
      primitives, this.eta, this.seed := p, eta, seed;
      next := WrapByte(first + |lanes|);
      remaining := count;
      batch := lanes;
      taken := 0;
      this.first, this.count, drawn, squeezed := first, count, 0, |lanes|;
    }

    /** Squeezes the widest batch the remaining streams fill. */
    method Refill()
      requires Valid() && remaining > 0 && taken == |batch|
      modifies this
      ensures Valid() && drawn == old(drawn) && taken == 0 && |batch| > 0
    {
      hide Prf, WrapByte;
      var lanes := PrfBatch(primitives, eta, seed, next, BatchWidth(remaining));
      BatchLanes(primitives, eta, seed, first + drawn, |lanes|);
      WrapByteAdds(first + squeezed, |lanes|);
      batch := lanes;
      next := WrapByte(next + |lanes|);
      squeezed := squeezed + |lanes|;
      taken := 0;
    }

    /** The next stream's noise polynomial. */
    method SampleElement() returns (f: RqWords)
      requires Valid() && remaining > 0
      modifies this
      ensures Valid() && drawn == old(drawn) + 1
      ensures f == Noise(primitives, eta, seed, WrapByte(first + old(drawn)))
      ensures f == SamplePolyCbd(eta, Squeeze(primitives.shake256(seed + [(first + old(drawn)) % 256]), 0, 64 * eta))
    {
      hide WrapByte, Prf, SamplePolyCbd, Squeeze;
      NoiseIs(primitives, eta, seed, first + drawn);
      if taken == |batch| {
        Refill();
      }
      var lane := batch[taken];
      taken := taken + 1;
      remaining := remaining - 1;
      drawn := drawn + 1;
      var element := SampleCbd(eta, lane);
      f := element[..];
    }

    /** The next `k` streams as a vector. */
    method SampleVector(k: nat) returns (v: seq<RqWords>)
      requires Valid() && k <= remaining
      modifies this
      ensures Valid() && drawn == old(drawn) + k
      ensures v == NoiseVector(primitives, eta, seed, first + old(drawn), k)
      ensures forall i | 0 <= i < k ::
                v[i] == SamplePolyCbd(eta, Squeeze(primitives.shake256(seed + [(first + old(drawn) + i) % 256]), 0, 64 * eta))
    {
      hide Noise, WrapByte, SamplePolyCbd, Squeeze;
      v := [];
      while |v| < k
        invariant Valid() && |v| <= k && drawn == old(drawn) + |v|
        invariant forall i | 0 <= i < |v| :: v[i] == Noise(primitives, eta, seed, WrapByte(first + old(drawn) + i))
        invariant forall i | 0 <= i < |v| ::
                    v[i] == SamplePolyCbd(eta, Squeeze(primitives.shake256(seed + [(first + old(drawn) + i) % 256]), 0, 64 * eta))
      {
        var f := SampleElement();
        v := v + [f];
      }
    }
  }

  lemma WrapByteAdds(x: nat, y: nat)
    ensures WrapByte(WrapByte(x) + y) == WrapByte(x + y)
  {
  }

  lemma BatchLanes(p: Primitives, eta: nat, seed: Bytes32, position: nat, width: nat)
    ensures forall i | 0 <= i < width ::
              PrfBatch(p, eta, seed, WrapByte(position), width)[i] == Prf(p, eta, seed, WrapByte(position + i))
  {
    hide Prf;
    forall i | 0 <= i < width
      ensures PrfBatch(p, eta, seed, WrapByte(position), width)[i] == Prf(p, eta, seed, WrapByte(position + i))
    {
      WrapByteAdds(position, i);
    }
  }
}
