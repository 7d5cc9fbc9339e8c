/** The symmetric primitives of section 4.1 of FIPS 203. The SHA-3 functions
    themselves are an arbitrary `Primitives` value: every statement of the project
    holds whatever they compute. Only their input layouts are modelled. */
module Functions {
  import opened Words
  import opened Cbd

  type Bytes32 = b: seq<byte> | |b| == 32 witness seq(32, i => 0)
  type Bytes64 = b: seq<byte> | |b| == 64 witness seq(64, i => 0)

  /** An endless squeezed byte stream. */
  datatype Stream = Stream(at: nat -> byte)

  datatype Primitives = Primitives(
    sha3_256: seq<byte> -> Bytes32,
    sha3_512: seq<byte> -> Bytes64,
    shake128: seq<byte> -> Stream,
    shake256: seq<byte> -> Stream)

  /** The bytes `from .. from + n` of a stream. */
  function Squeeze(stream: Stream, from: nat, n: nat): (bytes: seq<byte>)
    ensures |bytes| == n
    ensures forall i | 0 <= i < n :: bytes[i] == stream.at(from + i)
  {
    seq<byte>(n, i requires 0 <= i < n => stream.at(from + i))
  }

  function H(p: Primitives, preimage: seq<byte>): Bytes32 {
    p.sha3_256(preimage)
  }

  /** SHA3-512, split in half. */
  function G(p: Primitives, preimage: seq<byte>): (Bytes32, Bytes32) {
    var digest := p.sha3_512(preimage);
    (digest[..32], digest[32..])
  }

  function J(p: Primitives, z: Bytes32, c: seq<byte>): Bytes32 {
    Squeeze(p.shake256(z + c), 0, 32)
  }

  function Prf(p: Primitives, eta: nat, s: Bytes32, b: byte): (bytes: seq<byte>)
    ensures |bytes| == 64 * eta
  {
    Squeeze(p.shake256(s + [b]), 0, 64 * eta)
  }

  function Xof(p: Primitives, rho: Bytes32, i: byte, j: byte): Stream {
    p.shake128(rho + [i, j])
  }

  /** A byte that wraps, as `u8::wrapping_add` does. */
  function WrapByte(x: nat): byte {
    x % 256
  }

  /** The noise polynomial of stream `b`: `SamplePolyCBD_eta(PRF_eta(s, b))`. */
  function Noise(p: Primitives, eta: nat, s: Bytes32, b: byte): (f: RqWords)
    requires IsEta(eta)
    ensures forall i | 0 <= i < 256 :: Abs(f[i]) <= 3
  {
    SamplePolyCbd(eta, Prf(p, eta, s, b))
  }

  /** Stream `x` is SHAKE256 of the seed and the byte x mod 256, 64 * eta bytes of it. */
  lemma NoiseIs(p: Primitives, eta: nat, s: Bytes32, x: nat)
    requires IsEta(eta)
    ensures Noise(p, eta, s, WrapByte(x)) == SamplePolyCbd(eta, Squeeze(p.shake256(s + [x % 256]), 0, 64 * eta))
  {
  }

  /** The noise polynomials of `n` consecutive streams, the separator wrapping at 256. */
  function NoiseVector(p: Primitives, eta: nat, s: Bytes32, first: nat, n: nat): (v: seq<RqWords>)
    requires IsEta(eta)
    ensures |v| == n && forall i | 0 <= i < n :: v[i] == Noise(p, eta, s, WrapByte(first + i))
  {
    seq<RqWords>(n, i requires 0 <= i < n => Noise(p, eta, s, WrapByte(first + i)))
  }
}
