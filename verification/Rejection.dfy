/** Rejection sampling of NTT-domain polynomials (`src/sampling.rs`,
    `src/sampling/arch/generic.rs`): Algorithm 7 of FIPS 203. */
module Rejection {
  import opened Words
  import opened Bits
  import F = Field
  import opened Functions
  import opened BaseMul

  /** The candidate in the low twelve bits of a three-byte group. */
  function LowCandidate(b0: byte, b1: byte): (d: nat)
    ensures d == b0 + 256 * (b1 % 16) && d < 4096
  {
    assert Pow2(4) == 16 && Pow2(8) == 256;
    AndMask(b1, 4);
    OrDisjoint(b0, And(b1, 0x0F), 8);
    Or(b0, And(b1, 0x0F) * 256)
  }

  /** The candidate in the high twelve bits. */
  function HighCandidate(b1: byte, b2: byte): (d: nat)
    ensures d == b1 / 16 + 16 * b2 && d < 4096
  {
    assert Pow2(4) == 16;
    OrDisjoint(b1 / 16, b2, 4);
    Or(b1 / 16, b2 * 16)
  }

  /** What one candidate contributes. */
  function Keep(d: nat): (r: seq<i16>)
    requires d < 4096
    ensures r == if d < 3329 then [d] else []
  {
    if d < 3329 then [F.New(d)] else []
  }

  /** What one three-byte group contributes: its two candidates in order. */
  function KeptGroup(b0: byte, b1: byte, b2: byte): (r: seq<i16>)
    ensures forall i | 0 <= i < |r| :: 0 <= r[i] < 3329
  {
    Keep(LowCandidate(b0, b1)) + Keep(HighCandidate(b1, b2))
  }

  /** The accepted candidates of a byte string, in order; a partial last group is ignored. */
  function Kept(bytes: seq<byte>): (r: seq<i16>)
    ensures forall i | 0 <= i < |r| :: 0 <= r[i] < 3329
    decreases |bytes|
  {
    if |bytes| < 3 then [] else KeptGroup(bytes[0], bytes[1], bytes[2]) + Kept(bytes[3..])
  }

  lemma {:induction false} KeptConcat(a: seq<byte>, b: seq<byte>, n: nat)
    requires |a| == 3 * n
    ensures Kept(a + b) == Kept(a) + Kept(b)
    decreases n
  {
    hide KeptGroup;
    if n == 0 {
      assert a + b == b;
    } else {
      assert (a + b)[3..] == a[3..] + b;
      KeptConcat(a[3..], b, n - 1);
    }
  }

  /** Appending up to 256 coefficients. */
  function Fill(have: seq<i16>, more: seq<i16>): (r: seq<i16>)
    requires |have| <= 256
    ensures |r| <= 256
  {
    if |have| + |more| <= 256 then have + more else (have + more)[..256]
  }

  lemma FillFill(have: seq<i16>, a: seq<i16>, b: seq<i16>)
    requires |have| <= 256
    ensures Fill(Fill(have, a), b) == Fill(have, a + b)
    ensures |Fill(have, a)| == 256 ==> Fill(have, a + b) == Fill(have, a)
  {
    assert have + (a + b) == (have + a) + b;
    if |have| + |a| > 256 {
      assert (have + a + b)[..256] == (have + a)[..256];
    }
  }

  /** A buffer holding `content` in its first `count` places. */
  ghost predicate Holds(out: array<i16>, count: nat, content: seq<i16>)
    reads out
  {
    out.Length == 264 && |content| == count <= 256 && out[..count] == content
  }

  /** One candidate of the scalar kernel. */
  method Offer(d: nat, out: array<i16>, count: nat, ghost content: seq<i16>) returns (c: nat)
    requires d < 4096 && Holds(out, count, content)
    modifies out
    ensures count <= c <= 256 && Holds(out, c, Fill(content, Keep(d)))
    ensures forall i | c <= i < 264 :: out[i] == old(out[i])
  {
    c := count;
    if d < 3329 && c < 256 {
      out[c] := F.New(d);
      c := c + 1;
      assert out[..c] == content + [F.New(d)];
    } else {
      assert content + Keep(d) == content || (content + Keep(d))[..256] == content;
    }
  }

  lemma KeptGroups(bytes: seq<byte>, g: nat)
    requires 3 * g + 3 <= |bytes|
    ensures Kept(bytes[..3 * g + 3]) == Kept(bytes[..3 * g]) + KeptGroup(bytes[3 * g], bytes[3 * g + 1], bytes[3 * g + 2])
  {
    hide KeptGroup;
    var last := bytes[3 * g..3 * g + 3];
    assert bytes[..3 * g + 3] == bytes[..3 * g] + last;
    KeptConcat(bytes[..3 * g], last, g);
    assert Kept(last) == KeptGroup(last[0], last[1], last[2]) + Kept(last[3..]);
  }

  lemma GroupKept(bytes: seq<byte>, g: nat, have: seq<i16>)
    requires 3 * g + 3 <= |bytes| && |have| <= 256
    ensures Fill(Fill(Fill(have, Kept(bytes[..3 * g])), Keep(LowCandidate(bytes[3 * g], bytes[3 * g + 1]))),
                 Keep(HighCandidate(bytes[3 * g + 1], bytes[3 * g + 2])))
         == Fill(have, Kept(bytes[..3 * g + 3]))
  {
    hide Keep, LowCandidate, HighCandidate, Fill, Kept;
    var kept := Kept(bytes[..3 * g]);
    var low := Keep(LowCandidate(bytes[3 * g], bytes[3 * g + 1]));
    var high := Keep(HighCandidate(bytes[3 * g + 1], bytes[3 * g + 2]));
    KeptGroups(bytes, g);
    FillFill(have, kept, low);
    FillFill(have, kept + low, high);
    assert kept + low + high == kept + (low + high);
  }

  lemma FullStays(bytes: seq<byte>, g: nat, have: seq<i16>)
    requires 3 * g <= |bytes| && |have| <= 256
    requires |Fill(have, Kept(bytes[..3 * g]))| == 256
    ensures Fill(have, Kept(bytes[..3 * g])) == Fill(have, Kept(bytes))
  {
    hide Kept, Fill;
    assert bytes == bytes[..3 * g] + bytes[3 * g..];
    KeptConcat(bytes[..3 * g], bytes[3 * g..], g);
    FillFill(have, Kept(bytes[..3 * g]), Kept(bytes[3 * g..]));
  }

  /** The scalar kernel: appends the accepted candidates until the buffer holds 256. */
  method RejectScalar(bytes: seq<byte>, out: array<i16>, count: nat, ghost content: seq<i16>) returns (c: nat)
    requires Holds(out, count, content)
    modifies out
    ensures c <= 256 && Holds(out, c, Fill(content, Kept(bytes)))
    ensures forall i | c <= i < 264 :: out[i] == old(out[i])
  {
    hide Keep, LowCandidate, HighCandidate, Fill, Kept;
    c := count;
    var g: nat := 0;
    StartFill(content, bytes);
    while g < |bytes| / 3
      invariant g <= |bytes| / 3 && c <= 256
      invariant Holds(out, c, Fill(content, Kept(bytes[..3 * g])))
      invariant forall i | c <= i < 264 :: out[i] == old(out[i])
    {
      if c >= 256 {
        break;
      }
      ghost var before := Fill(content, Kept(bytes[..3 * g]));
      var d1 := LowCandidate(bytes[3 * g], bytes[3 * g + 1]);
      var d2 := HighCandidate(bytes[3 * g + 1], bytes[3 * g + 2]);
      c := Offer(d1, out, c, before);
      c := Offer(d2, out, c, Fill(before, Keep(d1)));
      GroupKept(bytes, g, content);
      g := g + 1;
    }
    if c >= 256 {
      FullStays(bytes, g, content);
    } else {
      RestIgnored(bytes, g);
    }
  }

  lemma RestIgnored(bytes: seq<byte>, g: nat)
    requires g == |bytes| / 3
    ensures Kept(bytes[..3 * g]) == Kept(bytes)
  {
    assert bytes == bytes[..3 * g] + bytes[3 * g..];
    KeptConcat(bytes[..3 * g], bytes[3 * g..], g);
  }

  lemma StartFill(have: seq<i16>, bytes: seq<byte>)
    requires |have| <= 256
    ensures Fill(have, Kept(bytes[..0])) == have
  {
  }

  // ---- sampling one element ----

  /** The stream eventually yields 256 accepted candidates: the sampler terminates. */
  ghost predicate Fills(stream: Stream) {
    exists n: nat :: |Kept(Squeeze(stream, 0, 3 * n))| >= 256
  }

  ghost predicate FilledBy(stream: Stream, n: nat) {
    |Kept(Squeeze(stream, 0, 3 * n))| >= 256
  }

  lemma FillsWitness(stream: Stream) returns (n: nat)
    requires Fills(stream)
    ensures FilledBy(stream, n)
  {
    n :| |Kept(Squeeze(stream, 0, 3 * n))| >= 256;
  }

  /** The stream of zeros: every candidate is zero, and accepted. */
  const ZEROS: Stream := Stream(_ => 0)

  lemma {:induction false} ZerosKept(from: nat, n: nat)
    ensures |Kept(Squeeze(ZEROS, from, 3 * n))| == 2 * n
    decreases n
  {
    if n > 0 {
      var bytes := Squeeze(ZEROS, from, 3 * n);
      assert bytes[3..] == Squeeze(ZEROS, from + 3, 3 * (n - 1));
      ZerosKept(from + 3, n - 1);
    }
  }

  lemma ZerosFill()
    ensures Fills(ZEROS)
  {
    ZerosKept(0, 128);
  }

  /** The first 256 accepted candidates of a stream: Algorithm 7 of FIPS 203. */
  ghost function FirstAccepted(stream: Stream): (r: seq<i16>)
    requires Fills(stream)
    ensures |r| == 256 && forall i | 0 <= i < 256 :: 0 <= r[i] < 3329
  {
    var n: nat :| |Kept(Squeeze(stream, 0, 3 * n))| >= 256;
    Kept(Squeeze(stream, 0, 3 * n))[..256]
  }

  lemma SqueezeSplits(stream: Stream, m: nat, n: nat)
    ensures Squeeze(stream, 0, m + n) == Squeeze(stream, 0, m) + Squeeze(stream, m, n)
  {
  }

  /** Reading on only appends. */
  lemma KeptExtends(stream: Stream, m: nat, n: nat)
    requires m <= n
    ensures Kept(Squeeze(stream, 0, 3 * m)) <= Kept(Squeeze(stream, 0, 3 * n))
  {
    hide Kept, Squeeze;
    SqueezeSplits(stream, 3 * m, 3 * (n - m));
    KeptConcat(Squeeze(stream, 0, 3 * m), Squeeze(stream, 3 * m, 3 * (n - m)), m);
  }

  /** Any long enough read shows the same first 256 candidates. */
  lemma FirstAcceptedFrom(stream: Stream, m: nat)
    requires FilledBy(stream, m)
    ensures Fills(stream) && Kept(Squeeze(stream, 0, 3 * m))[..256] == FirstAccepted(stream)
  {
    hide Kept, Squeeze;
    var n: nat :| |Kept(Squeeze(stream, 0, 3 * n))| >= 256 && FirstAccepted(stream) == Kept(Squeeze(stream, 0, 3 * n))[..256];
    if m <= n {
      KeptExtends(stream, m, n);
    } else {
      KeptExtends(stream, n, m);
    }
  }

  // ---- the accepted candidates, one by one ----

  /** Candidate `n` of a stream: two twelve-bit numbers from every three bytes. */
  function CandidateAt(stream: Stream, n: nat): nat {
    var at := n / 2 * 3;
    if n % 2 == 0 then stream.at(at) + 256 * (stream.at(at + 1) % 16)
    else stream.at(at + 1) / 16 + 16 * stream.at(at + 2)
  }

  /** The numbers of the accepted candidates of `n` groups, from group `g` on. */
  function AcceptedAt(stream: Stream, g: nat, n: nat): (at: seq<nat>)
    decreases n
  {
    if n == 0 then [] else AcceptedIn(stream, g) + AcceptedAt(stream, g + 1, n - 1)
  }

  function AcceptedIn(stream: Stream, g: nat): (at: seq<nat>) {
    (if CandidateAt(stream, 2 * g) < 3329 then [2 * g] else [])
    + (if CandidateAt(stream, 2 * g + 1) < 3329 then [2 * g + 1] else [])
  }

  lemma GroupAt(stream: Stream, g: nat)
    ensures CandidateAt(stream, 2 * g) == LowCandidate(stream.at(3 * g), stream.at(3 * g + 1))
    ensures CandidateAt(stream, 2 * g + 1) == HighCandidate(stream.at(3 * g + 1), stream.at(3 * g + 2))
  {
    assert (2 * g) / 2 == g && (2 * g) % 2 == 0 && (2 * g + 1) / 2 == g && (2 * g + 1) % 2 == 1;
  }

  /** The numbers increase and stay within the groups read. */
  lemma {:induction false} AcceptedIncrease(stream: Stream, g: nat, n: nat)
    ensures forall j | 0 <= j < |AcceptedAt(stream, g, n)| :: 2 * g <= AcceptedAt(stream, g, n)[j] < 2 * (g + n)
    ensures forall j, l | 0 <= j < l < |AcceptedAt(stream, g, n)| :: AcceptedAt(stream, g, n)[j] < AcceptedAt(stream, g, n)[l]
    decreases n
  {
    hide CandidateAt;
    if n > 0 {
      AcceptedIncrease(stream, g + 1, n - 1);
    }
  }

  /** Every candidate read is accepted at its number or not below q. */
  lemma {:induction false} OthersRejected(stream: Stream, g: nat, n: nat, c: nat)
    requires 2 * g <= c < 2 * (g + n) && c !in AcceptedAt(stream, g, n)
    ensures CandidateAt(stream, c) >= 3329
    decreases n
  {
    hide CandidateAt;
    if c >= 2 * (g + 1) {
      OthersRejected(stream, g + 1, n - 1, c);
    } else {
      assert c == 2 * g || c == 2 * g + 1;
      assert c !in AcceptedIn(stream, g);
    }
  }

  lemma KeptInGroup(stream: Stream, g: nat)
    ensures var at, kept := AcceptedIn(stream, g), KeptGroup(stream.at(3 * g), stream.at(3 * g + 1), stream.at(3 * g + 2));
      |at| == |kept| && forall j | 0 <= j < |at| :: CandidateAt(stream, at[j]) == kept[j]
  {
    GroupAt(stream, g);
    hide CandidateAt, LowCandidate, HighCandidate;
  }

  /** What is kept are the candidates at those numbers, in order. */
  lemma {:induction false} KeptAreAccepted(stream: Stream, g: nat, n: nat)
    ensures var at, kept := AcceptedAt(stream, g, n), Kept(Squeeze(stream, 3 * g, 3 * n));
      |at| == |kept| && forall j | 0 <= j < |at| :: CandidateAt(stream, at[j]) == kept[j]
    decreases n
  {
    hide CandidateAt, KeptGroup, AcceptedIn;
    if n > 0 {
      var bytes := Squeeze(stream, 3 * g, 3 * n);
      assert bytes[3..] == Squeeze(stream, 3 * (g + 1), 3 * (n - 1));
      KeptInGroup(stream, g);
      KeptAreAccepted(stream, g + 1, n - 1);
    }
  }

  /** Algorithm 7 of FIPS 203: the sampled coefficients are the candidates below q, in
      stream order, none skipped. */
  lemma FirstAcceptedInOrder(stream: Stream) returns (at: seq<nat>)
    requires Fills(stream)
    ensures |at| == 256 && forall j | 0 <= j < 256 :: CandidateAt(stream, at[j]) == FirstAccepted(stream)[j]
    ensures forall j, l | 0 <= j < l < 256 :: at[j] < at[l]
    ensures forall c | 0 <= c < at[255] && c !in at :: CandidateAt(stream, c) >= 3329
  {
    hide CandidateAt, FirstAccepted, Fills, AcceptedAt, Kept;
    var n := FillsWitness(stream);
    FirstAcceptedFrom(stream, n);
    KeptAreAccepted(stream, 0, n);
    AcceptedIncrease(stream, 0, n);
    var all := AcceptedAt(stream, 0, n);
    at := all[..256];
    forall c | 0 <= c < at[255] && c !in at ensures CandidateAt(stream, c) >= 3329 {
      assert all[255] < 2 * n;
      assert c !in all;
      OthersRejected(stream, 0, n, c);
    }
  }

  /** The sampled element: the accepted candidates in split storage. */
  ghost function SampledElement(stream: Stream): (h: TqWords)
    requires Fills(stream)
  {
    Split(FirstAccepted(stream))
  }

  /** What a lane's buffer holds once `groups` three-byte groups were offered to it. */
  function LaneContent(stream: Stream, groups: nat): (r: seq<i16>)
    ensures |r| <= 256
  {
    Fill([], Kept(Squeeze(stream, 0, 3 * groups)))
  }

  lemma LaneAdvances(stream: Stream, groups: nat, more: nat)
    ensures Fill(LaneContent(stream, groups), Kept(Squeeze(stream, 3 * groups, 3 * more))) == LaneContent(stream, groups + more)
  {
    hide Fill, Kept, Squeeze;
    SqueezeSplits(stream, 3 * groups, 3 * more);
    KeptConcat(Squeeze(stream, 0, 3 * groups), Squeeze(stream, 3 * groups, 3 * more), groups);
    FillFill([], Kept(Squeeze(stream, 0, 3 * groups)), Kept(Squeeze(stream, 3 * groups, 3 * more)));
  }

  lemma LaneDone(stream: Stream, groups: nat)
    ensures |LaneContent(stream, groups)| == 256 ==> Fills(stream) && LaneContent(stream, groups) == FirstAccepted(stream)
    ensures |LaneContent(stream, groups)| < 256 ==> !FilledBy(stream, groups)
  {
    hide Kept, Squeeze, FirstAccepted;
    if FilledBy(stream, groups) {
      FirstAcceptedFrom(stream, groups);
      assert [] + Kept(Squeeze(stream, 0, 3 * groups)) == Kept(Squeeze(stream, 0, 3 * groups));
    }
  }

  lemma FilledLater(stream: Stream, m: nat, n: nat)
    requires m <= n && FilledBy(stream, m)
    ensures FilledBy(stream, n)
  {
    KeptExtends(stream, m, n);
  }
}
