/** The encoder: a bit string, four characters at a time, each nibble
    replaced by its codeword. */
module Encoder {
  import opened Bits
  import opened Codeword

  /** `encode` as a function: the codewords of the successive nibbles; a
      trailing fragment shorter than four is dropped. */
  function Encoded(s: string): (e: string)
    ensures |e| == 8 * (|s| / 4)
    decreases |s|
  {
    if |s| < 4 then []
    else
      DivStep(|s|, 4);
      ToHamming(s[..4]) + Encoded(s[4..])
  }

  /** `encode`: the loop that consumes four characters at a time. */
  method Encode(s: string) returns (encoded: string)
    ensures encoded == Encoded(s)
  {
    encoded := "";
    var rest := s;
    while |rest| >= 4
      invariant encoded + Encoded(rest) == Encoded(s)
      decreases |rest|
    {
      var nibble := rest[..4];
      EncodeStep(encoded, rest);
      encoded := encoded + ToHamming(nibble);
      rest := rest[4..];
    }
    assert encoded + [] == encoded;
  }

  lemma {:induction false} EncodeStep(done: string, rest: string)
    requires |rest| >= 4
    ensures done + Encoded(rest) == (done + ToHamming(rest[..4])) + Encoded(rest[4..])
  {
  }

  /** The first codeword of the encoding, and what follows it. */
  lemma {:induction false} EncodedSplit(s: string)
    requires |s| >= 4
    ensures 8 <= |Encoded(s)|
    ensures Encoded(s)[..8] == ToHamming(s[..4]) && Encoded(s)[8..] == Encoded(s[4..])
  {
    var h, t := ToHamming(s[..4]), Encoded(s[4..]);
    assert Encoded(s) == h + t;
  }

  /** Codeword `k` of `e`, its characters `8k` to `8k + 7`, is the codeword
      of `n`. */
  predicate CodewordAt(e: string, k: nat, n: string)
  {
    |n| >= 4 && 8 * k + 8 <= |e| && e[8 * k..8 * k + 8] == ToHamming(n)
  }

  /** Chunk `k` of the encoding is the codeword of nibble `k`. */
  lemma {:induction false} EncodedChunk(s: string, k: nat)
    requires k < |s| / 4
    ensures 4 * k + 4 <= |s| && CodewordAt(Encoded(s), k, s[4 * k..4 * k + 4])
  {
    assert 4 * k + 4 <= |s|;
    var d := s[4 * k..];
    EncodedDrop(s, k);
    EncodedSplit(d);
    CodewordOfDrop(Encoded(s), Encoded(d), s, d, k);
  }

  lemma {:induction false} CodewordOfDrop(e: string, f: string, s: string, d: string, k: nat)
    requires 4 * k + 4 <= |s| && s[4 * k..] == d && DropsTo(e, 8 * k, f)
    requires 8 <= |f| && f[..8] == ToHamming(d[..4])
    ensures CodewordAt(e, k, s[4 * k..4 * k + 4])
  {
    SliceOfDrop(e, f, 8 * k, 8);
    SliceOfDrop(s, d, 4 * k, 4);
    SameCodeword(d[..4], s[4 * k..4 * k + 4]);
  }

  lemma {:induction false} SameCodeword(a: string, b: string)
    requires |a| >= 4 && a == b
    ensures ToHamming(a) == ToHamming(b)
  {
  }

  /** Dropping `k` nibbles drops `k` codewords. */
  lemma {:induction false} EncodedDrop(s: string, k: nat)
    requires 4 * k <= |s|
    ensures DropsTo(Encoded(s), 8 * k, Encoded(s[4 * k..]))
  {
    if k > 0 {
      var t := s[4..];
      assert 4 * (k - 1) <= |t|;
      EncodedSplit(s);
      EncodedDrop(t, k - 1);
      DropDrop(s, 4, 4 * (k - 1));
      DropChain(Encoded(s), Encoded(t), Encoded(t[4 * (k - 1)..]), 8, 8 * (k - 1), 8 * k);
    }
  }
}
