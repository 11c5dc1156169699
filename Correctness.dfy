/** What the program sets out to show: encoded data decodes back, one flipped
    bit per codeword is corrected, and two flipped bits in a codeword are
    detected. */
module Correctness {
  import opened Wrappers
  import opened Bits
  import opened Codebook
  import opened Codeword
  import opened Encoder
  import opened Decoder
  import opened ErrorInjector

  // One codeword.

  /** An undamaged codeword decodes to its nibble, with no correction. */
  lemma {:induction false} DecodeClean(n: string)
    requires |n| == 4 && IsBits(n)
    ensures Classify(ToHamming(n)) == Clean(n)
  {
    TableConsistency(n);
    var v := Value(n);
    DiffSelf(G[v], 8);
    ClassifyNear(ToHamming(n), v);
    DataOfToHamming(n);
  }

  /** A codeword with one flipped bit is corrected to its nibble. */
  lemma {:induction false} CorrectSingle(n: string, p: nat)
    requires |n| == 4 && IsBits(n) && p < 8
    ensures Classify(FlipAt(ToHamming(n), p)) == Corrected(n)
  {
    TableConsistency(n);
    var v := Value(n);
    FlipDistance(ToHamming(n), p);
    ClassifyNear(FlipAt(ToHamming(n), p), v);
    DataOfToHamming(n);
  }

  /** A codeword with two different bits flipped is rejected. */
  lemma {:induction false} DetectDouble(n: string, p: nat, q: nat)
    requires |n| == 4 && IsBits(n) && p < 8 && q < 8 && p != q
    ensures Classify(FlipAt(FlipAt(ToHamming(n), p), q)) == DoubleError
  {
    TableConsistency(n);
    FlipTwiceDistance(ToHamming(n), p, q);
    ClassifyDouble(FlipAt(FlipAt(ToHamming(n), p), q), Value(n));
  }

  /** Flipping the same bit character twice restores it. */
  lemma {:induction false} FlipTwice(s: string, p: nat)
    requires IsBits(s) && p < |s|
    ensures FlipAt(FlipAt(s, p), p) == s
  {
    FlipAtChars(s, p);
    FlipAtChars(FlipAt(s, p), p);
  }

  // Whole streams.

  /** The characters of every nibble encode reads are bits. */
  predicate NibblesAreBits(s: string)
  {
    forall i :: 0 <= i < 4 * (|s| / 4) ==> IsBit(s[i])
  }

  lemma {:induction false} NibbleIsBits(s: string, k: nat)
    requires NibblesAreBits(s) && k < |s| / 4
    ensures IsBits(s[4 * k..4 * k + 4])
  {
    var n := s[4 * k..4 * k + 4];
    forall i | 0 <= i < 4
      ensures IsBit(n[i])
    {
      assert n[i] == s[4 * k + i];
    }
  }

  /** Encoding bit nibbles gives bit characters only. */
  lemma {:induction false} EncodedIsBits(s: string)
    requires NibblesAreBits(s)
    ensures IsBits(Encoded(s))
    decreases |s|
  {
    if |s| >= 4 {
      assert IsBits(s[..4]) by {
        assert forall i :: 0 <= i < 4 ==> s[..4][i] == s[i];
      }
      assert NibblesAreBits(s[4..]) by {
        assert forall i :: 0 <= i < 4 * (|s[4..]| / 4) ==> s[4..][i] == s[i + 4];
      }
      EncodedIsBits(s[4..]);
      assert Encoded(s) == ToHamming(s[..4]) + Encoded(s[4..]);
    }
  }

  /** Spoiling bit characters leaves bit characters. */
  lemma {:induction false} SpoiledIsBits(s: string, width: nat, pos: seq<nat>)
    requires width > 0 && PositionsFit(s, width, pos) && IsBits(s)
    ensures IsBits(Spoiled(s, width, pos))
    decreases |s|
  {
    if |s| >= width {
      PositionsFitTail(s, width, pos);
      assert IsBits(s[..width]) by {
        assert forall i :: 0 <= i < width ==> s[..width][i] == s[i];
      }
      assert IsBits(s[width..]) by {
        assert forall i :: 0 <= i < |s[width..]| ==> s[width..][i] == s[i + width];
      }
      FlipAtChars(s[..width], pos[0]);
      SpoiledIsBits(s[width..], width, pos[1..]);
      assert Spoiled(s, width, pos) == FlipAt(s[..width], pos[0]) + Spoiled(s[width..], width, pos[1..]);
    }
  }

  /** Chunk `k` of the encoding decodes cleanly to nibble `k`. */
  lemma {:induction false} EncodedChunkDecodes(s: string, k: nat)
    requires NibblesAreBits(s) && k < |s| / 4
    ensures |Encoded(s)| / 8 == |s| / 4
    ensures ChunkResult(Encoded(s), k) == Some(s[4 * k..4 * k + 4])
  {
    var e := Encoded(s);
    DivUnique(|e|, 8, |s| / 4, 0);
    EncodedChunk(s, k);
    NibbleIsBits(s, k);
    ChunkWithinOne(e, k, e[8 * k..8 * k + 8], s[4 * k..4 * k + 4], 0, false);
  }

  /** Round trip: decoding the encoding gives back every whole nibble; a
      trailing fragment shorter than four characters is lost. */
  lemma {:induction false} DecodeEncoded(s: string)
    requires NibblesAreBits(s)
    ensures ChunksAreDigits(Encoded(s))
    ensures Decoded(Encoded(s)) == Some(s[..4 * (|s| / 4)])
  {
    EncodedIsBits(s);
    var e, r := Encoded(s), s[..4 * (|s| / 4)];
    DivUnique(|e|, 8, |s| / 4, 0);
    assert |r| == 4 * (|e| / 8);
    forall k | 0 <= k < |e| / 8
      ensures ChunkResult(e, k) == Some(r[4 * k..4 * k + 4])
    {
      EncodedChunkDecodes(s, k);
      SliceOfPrefix(s, 4 * (|s| / 4), 4 * k, 4 * k + 4);
    }
    DecodedFromChunks(e, r);
  }

  /** The width-8 injector, chunk by chunk in decode's terms. */
  lemma {:induction false} SpoiledChunk8(e: string, pos: seq<nat>, k: nat)
    requires PositionsFit(e, 8, pos) && k < |e| / 8
    ensures Chunks(|e|, 8) == |e| / 8 && pos[k] < 8
    ensures |Spoiled(e, 8, pos)| == 8 * (|e| / 8) && |Spoiled(e, 8, pos)| / 8 == |e| / 8
    ensures Spoiled(e, 8, pos)[8 * k..8 * k + 8] == FlipAt(e[8 * k..8 * k + 8], pos[k])
  {
    ChunksIsQuotient(|e|, 8);
    OffsetIsProduct(8, |e| / 8);
    OffsetIsProduct(8, k);
    SpoiledSize(e, 8, pos);
    SpoiledChunk(e, 8, pos, k);
    assert ChunkFlipped(Spoiled(e, 8, pos), e, Offset(8, k), 8, pos[k]);
  }

  /** The width-8 injector keeps the length of an encoding. */
  lemma {:induction false} SpoiledEncodedLength(s: string, pos: seq<nat>)
    requires PositionsFit(Encoded(s), 8, pos)
    ensures |Encoded(s)| / 8 == |s| / 4 && Chunks(|Encoded(s)|, 8) == |s| / 4
    ensures |Spoiled(Encoded(s), 8, pos)| == |Encoded(s)|
    ensures |Spoiled(Encoded(s), 8, pos)| / 8 == |s| / 4
  {
    var q := |s| / 4;
    assert |Encoded(s)| == 8 * q;
    assert |Encoded(s)| / 8 == q;
    ChunksIsQuotient(|Encoded(s)|, 8);
    OffsetIsProduct(8, q);
    SpoiledSize(Encoded(s), 8, pos);
  }

  /** With one flip in codeword `k`, chunk `k` is corrected to nibble `k`. */
  lemma {:induction false} SpoiledEncodedChunkCorrected(s: string, pos: seq<nat>, k: nat)
    requires NibblesAreBits(s) && PositionsFit(Encoded(s), 8, pos) && k < |s| / 4
    ensures |Spoiled(Encoded(s), 8, pos)| / 8 == |s| / 4
    ensures ChunkResult(Spoiled(Encoded(s), 8, pos), k) == Some(s[4 * k..4 * k + 4])
  {
    var e := Encoded(s);
    SpoiledEncodedLength(s, pos);
    SpoiledChunk8(e, pos, k);
    EncodedChunk(s, k);
    NibbleIsBits(s, k);
    ChunkWithinOne(Spoiled(e, 8, pos), k, e[8 * k..8 * k + 8], s[4 * k..4 * k + 4], pos[k], true);
  }

  /** spoilTwoBitsInByte puts one error in every codeword; decoding corrects
      all of them. */
  lemma {:induction false} CorrectOnePerCodeword(s: string, pos: seq<nat>)
    requires NibblesAreBits(s) && PositionsFit(Encoded(s), 8, pos)
    ensures ChunksAreDigits(Spoiled(Encoded(s), 8, pos))
    ensures Decoded(Spoiled(Encoded(s), 8, pos)) == Some(s[..4 * (|s| / 4)])
  {
    EncodedIsBits(s);
    SpoiledIsBits(Encoded(s), 8, pos);
    AllChunksCorrected(s, pos);
    DecodedFromChunks(Spoiled(Encoded(s), 8, pos), s[..4 * (|s| / 4)]);
  }

  lemma {:induction false} AllChunksCorrected(s: string, pos: seq<nat>)
    requires NibblesAreBits(s) && PositionsFit(Encoded(s), 8, pos)
    ensures |Spoiled(Encoded(s), 8, pos)| / 8 == |s| / 4
    ensures |s[..4 * (|s| / 4)]| == 4 * (|s| / 4)
    ensures forall k :: 0 <= k < |s| / 4 ==>
              ChunkResult(Spoiled(Encoded(s), 8, pos), k) == Some(s[..4 * (|s| / 4)][4 * k..4 * k + 4])
  {
    var x, r := Spoiled(Encoded(s), 8, pos), s[..4 * (|s| / 4)];
    SpoiledEncodedLength(s, pos);
    forall k | 0 <= k < |s| / 4
      ensures ChunkResult(x, k) == Some(r[4 * k..4 * k + 4])
    {
      SpoiledEncodedChunkCorrected(s, pos, k);
      SliceOfPrefix(s, 4 * (|s| / 4), 4 * k, 4 * k + 4);
    }
  }

  /** Spoiling twice with the width-8 injector: a codeword is rejected exactly
      when its two flips hit different bits, and otherwise decodes to its
      nibble, since flipping a bit twice restores it. */
  lemma {:induction false} TwiceSpoiledChunk(s: string, p: seq<nat>, q: seq<nat>, k: nat)
    requires NibblesAreBits(s) && PositionsFit(Encoded(s), 8, p)
    requires PositionsFit(Spoiled(Encoded(s), 8, p), 8, q) && k < |s| / 4
    ensures Chunks(|Encoded(s)|, 8) == |s| / 4 && p[k] < 8
    ensures |Spoiled(Encoded(s), 8, p)| == |Encoded(s)| && q[k] < 8
    ensures |Spoiled(Spoiled(Encoded(s), 8, p), 8, q)| / 8 == |s| / 4
    ensures ChunkResult(Spoiled(Spoiled(Encoded(s), 8, p), 8, q), k) ==
            if p[k] == q[k] then Some(s[4 * k..4 * k + 4]) else None
  {
    var e := Encoded(s);
    var x := Spoiled(e, 8, p);
    SpoiledEncodedLength(s, p);
    SpoiledChunk8(e, p, k);
    SpoiledChunk8(x, q, k);
    EncodedChunk(s, k);
    NibbleIsBits(s, k);
    ChunkTwoFlips(Spoiled(x, 8, q), x, k, e[8 * k..8 * k + 8], s[4 * k..4 * k + 4], p[k], q[k]);
  }

  /** A chunk holding the encoding `c` of `n` flipped at `a` and then at `b`
      decodes to `n` when the flips cancel, and is rejected otherwise. */
  lemma {:induction false} ChunkTwoFlips(y: string, x: string, k: nat, c: string, n: string, a: nat, b: nat)
    requires k < |y| / 8 && 8 * k + 8 <= |x| && |n| == 4 && IsBits(n) && a < 8 && b < 8
    requires c == ToHamming(n) && x[8 * k..8 * k + 8] == FlipAt(c, a)
    requires y[8 * k..8 * k + 8] == FlipAt(x[8 * k..8 * k + 8], b)
    ensures ChunkResult(y, k) == if a == b then Some(n) else None
  {
    assert y[8 * k..8 * k + 8] == FlipAt(FlipAt(c, a), b);
    if a == b {
      FlipTwiceEncoded(n, a);
      DecodeClean(n);
    } else {
      DetectDouble(n, a, b);
    }
  }

  lemma {:induction false} FlipTwiceEncoded(n: string, p: nat)
    requires |n| == 4 && IsBits(n) && p < 8
    ensures FlipAt(FlipAt(ToHamming(n), p), p) == ToHamming(n)
  {
    FlipTwice(ToHamming(n), p);
  }

  /** Two flips in the same codeword make decode give up; flips that cancel
      out everywhere leave the data intact. */
  lemma {:induction false} DetectTwoInCodeword(s: string, p: seq<nat>, q: seq<nat>)
    requires NibblesAreBits(s) && PositionsFit(Encoded(s), 8, p)
    requires PositionsFit(Spoiled(Encoded(s), 8, p), 8, q)
    ensures Chunks(|Encoded(s)|, 8) == |s| / 4 && |Spoiled(Encoded(s), 8, p)| == |Encoded(s)|
    ensures Decoded(Spoiled(Spoiled(Encoded(s), 8, p), 8, q)).None? <==>
            exists k :: 0 <= k < |s| / 4 && p[k] != q[k]
    ensures (forall k :: 0 <= k < |s| / 4 ==> p[k] == q[k]) ==>
            Decoded(Spoiled(Spoiled(Encoded(s), 8, p), 8, q)) == Some(s[..4 * (|s| / 4)])
  {
    var y := Spoiled(Spoiled(Encoded(s), 8, p), 8, q);
    AllChunksTwiceSpoiled(s, p, q);
    TwoFlipsVerdict(y, s[..4 * (|s| / 4)], p, q, |s| / 4);
  }

  /** A stream whose chunk `k` decodes to nibble `k` of `r` when the two
      positions agree and is rejected otherwise decodes to `r` or to nothing. */
  lemma {:induction false} TwoFlipsVerdict(y: string, r: string, p: seq<nat>, q: seq<nat>, n: nat)
    requires |y| / 8 == n && |r| == 4 * n && n <= |p| && n <= |q|
    requires forall k :: 0 <= k < n ==>
               ChunkResult(y, k) == if p[k] == q[k] then Some(r[4 * k..4 * k + 4]) else None
    ensures Decoded(y).None? <==> exists k :: 0 <= k < n && p[k] != q[k]
    ensures (forall k :: 0 <= k < n ==> p[k] == q[k]) ==> Decoded(y) == Some(r)
  {
    DecodedNone(y);
    if forall k :: 0 <= k < n ==> p[k] == q[k] {
      DecodedFromChunks(y, r);
    }
  }

  /** Both width-8 injectors keep the length of an encoding. */
  lemma {:induction false} TwiceSpoiledLength(s: string, p: seq<nat>, q: seq<nat>)
    requires PositionsFit(Encoded(s), 8, p)
    requires PositionsFit(Spoiled(Encoded(s), 8, p), 8, q)
    ensures Chunks(|Encoded(s)|, 8) == |s| / 4 && |Spoiled(Encoded(s), 8, p)| == |Encoded(s)|
    ensures |Spoiled(Spoiled(Encoded(s), 8, p), 8, q)| / 8 == |s| / 4
    ensures |s[..4 * (|s| / 4)]| == 4 * (|s| / 4)
  {
    SpoiledEncodedLength(s, p);
    ChunksIsQuotient(|Spoiled(Encoded(s), 8, p)|, 8);
    OffsetIsProduct(8, |s| / 4);
    SpoiledSize(Spoiled(Encoded(s), 8, p), 8, q);
  }

  lemma {:induction false} AllChunksTwiceSpoiled(s: string, p: seq<nat>, q: seq<nat>)
    requires NibblesAreBits(s) && PositionsFit(Encoded(s), 8, p)
    requires PositionsFit(Spoiled(Encoded(s), 8, p), 8, q)
    ensures Chunks(|Encoded(s)|, 8) == |s| / 4 && |Spoiled(Encoded(s), 8, p)| == |Encoded(s)|
    ensures |Spoiled(Spoiled(Encoded(s), 8, p), 8, q)| / 8 == |s| / 4
    ensures |s[..4 * (|s| / 4)]| == 4 * (|s| / 4)
    ensures forall k :: 0 <= k < |s| / 4 ==>
              ChunkResult(Spoiled(Spoiled(Encoded(s), 8, p), 8, q), k) ==
              if p[k] == q[k] then Some(s[..4 * (|s| / 4)][4 * k..4 * k + 4]) else None
  {
    var y := Spoiled(Spoiled(Encoded(s), 8, p), 8, q);
    var r := s[..4 * (|s| / 4)];
    TwiceSpoiledLength(s, p, q);
    forall k | 0 <= k < |s| / 4
      ensures ChunkResult(y, k) == if p[k] == q[k] then Some(r[4 * k..4 * k + 4]) else None
    {
      TwiceSpoiledChunk(s, p, q, k);
      SliceOfPrefix(s, 4 * (|s| / 4), 4 * k, 4 * k + 4);
    }
  }

  // spoilOneBitInByte: one flip in every sixteen characters.

  /** Chunk `2 * m + h` of the encoding is the first (h = 0) or second
      (h = 1) half of chunk `m` of sixteen; it carries that chunk's flip when
      the drawn position falls in its half, and is copied unchanged
      otherwise. */
  lemma {:induction false} Spoiled16Half(e: string, pos: seq<nat>, m: nat, h: nat, o: nat)
    requires PositionsFit(e, 16, pos) && m < Chunks(|e|, 16) && h < 2 && o == Offset(16, m) + 8 * h
    ensures o + 8 <= |Spoiled(e, 16, pos)| <= |e| && pos[m] < 16
    ensures HalfFlipped(Spoiled(e, 16, pos), e, o, pos[m], h)
  {
    SpoiledChunk(e, 16, pos, m);
    assert ChunkFlipped(Spoiled(e, 16, pos), e, Offset(16, m), 16, pos[m]);
    HalfOfFlippedChunk(Spoiled(e, 16, pos), e, Offset(16, m), pos[m], h, o);
  }

  /** A chunk at distance at most one from the encoding `c` of `n` decodes
      to `n`. */
  lemma {:induction false} ChunkWithinOne(x: string, k: nat, c: string, n: string, j: nat, flipped: bool)
    requires k < |x| / 8 && |n| == 4 && IsBits(n) && j < 8 && c == ToHamming(n)
    requires x[8 * k..8 * k + 8] == if flipped then FlipAt(c, j) else c
    ensures ChunkResult(x, k) == Some(n)
  {
    if flipped {
      CorrectSingle(n, j);
    } else {
      DecodeClean(n);
    }
  }

  /** Codeword `k` of `x` is codeword `k` of the encoding `e`, flipped at
      `j % 8` when `j` falls in half `h` of its sixteen characters. */
  lemma {:induction false} HalfDecodes(x: string, e: string, k: nat, n: string, j: nat, h: nat)
    requires k < |x| / 8 && |n| == 4 && IsBits(n) && j < 16 && h < 2
    requires CodewordAt(e, k, n) && HalfFlipped(x, e, 8 * k, j, h)
    ensures ChunkResult(x, k) == Some(n)
  {
    ChunkWithinOne(x, k, e[8 * k..8 * k + 8], n, j % 8, j / 8 == h);
  }

  /** Codeword `k`, half `h` of byte `m`, of an encoding spoiled with the
      width-16 injector decodes to its nibble: it carries at most one flip. */
  lemma {:induction false} Spoiled16ChunkDecodes(s: string, e: string, x: string, pos: seq<nat>,
                                                  m: nat, h: nat, k: nat)
    requires NibblesAreBits(s) && e == Encoded(s) && PositionsFit(e, 16, pos) && x == Spoiled(e, 16, pos)
    requires h < 2 && k == 2 * m + h && k < |s| / 4 && m < Chunks(|e|, 16) && k < |x| / 8
    ensures ChunkResult(x, k) == Some(s[4 * k..4 * k + 4])
  {
    OffsetIsProduct(16, m);
    Spoiled16Half(e, pos, m, h, 8 * k);
    EncodedChunk(s, k);
    NibbleIsBits(s, k);
    HalfDecodes(x, e, k, s[4 * k..4 * k + 4], pos[m], h);
  }

  /** Codeword `k` is half `k % 2` of byte `k / 2`. */
  lemma {:induction false} CodewordOfByte(n: nat, b: nat, k: nat) returns (m: nat, h: nat)
    requires b == n / 8 && k < 2 * b
    ensures k < n / 4 && m < b && h < 2 && k == 2 * m + h && 4 * k + 4 <= 8 * b <= n
  {
    EncodingHalves(n);
    m, h := k / 2, k % 2;
  }

  /** A stream of `n` characters encodes to `8 * (n / 4)` characters: `n / 8`
      chunks of sixteen, holding twice as many codewords. */
  lemma {:induction false} EncodingHalves(n: nat)
    ensures (8 * (n / 4)) / 16 == n / 8 && (16 * (n / 8)) / 8 == 2 * (n / 8)
    ensures 2 * (n / 8) <= n / 4 && 8 * (n / 8) <= n
  {
  }

  /** spoilOneBitInByte puts one error in every encoded byte; decoding
      corrects it and gives back every whole byte of the stream. */
  lemma {:induction false} CorrectOnePerByte(s: string, pos: seq<nat>)
    requires NibblesAreBits(s) && PositionsFit(Encoded(s), 16, pos)
    ensures ChunksAreDigits(Spoiled(Encoded(s), 16, pos))
    ensures Decoded(Spoiled(Encoded(s), 16, pos)) == Some(s[..8 * (|s| / 8)])
  {
    var x, r := Spoiled(Encoded(s), 16, pos), s[..8 * (|s| / 8)];
    EncodedIsBits(s);
    SpoiledIsBits(Encoded(s), 16, pos);
    AllBytesCorrected(s, pos);
    DecodedFromChunks(x, r);
  }

  lemma {:induction false} AllBytesCorrected(s: string, pos: seq<nat>)
    requires NibblesAreBits(s) && PositionsFit(Encoded(s), 16, pos)
    ensures |Spoiled(Encoded(s), 16, pos)| / 8 == 2 * (|s| / 8)
    ensures |s[..8 * (|s| / 8)]| == 4 * (2 * (|s| / 8))
    ensures forall k :: 0 <= k < 2 * (|s| / 8) ==>
              ChunkResult(Spoiled(Encoded(s), 16, pos), k) == Some(s[..8 * (|s| / 8)][4 * k..4 * k + 4])
  {
    var e, b := Encoded(s), |s| / 8;
    var x := Spoiled(e, 16, pos);
    EncodingHalves(|s|);
    ChunksIsQuotient(|e|, 16);
    SpoiledLength(e, 16, pos);
    assert |x| == 16 * b && |x| / 8 == 2 * b && Chunks(|e|, 16) == b;
    BytesDecode(s, e, x, pos, b);
  }

  lemma {:induction false} BytesDecode(s: string, e: string, x: string, pos: seq<nat>, b: nat)
    requires NibblesAreBits(s) && e == Encoded(s) && PositionsFit(e, 16, pos) && x == Spoiled(e, 16, pos)
    requires b == |s| / 8 && 8 * b <= |s| && |x| / 8 == 2 * b && Chunks(|e|, 16) == b
    ensures forall k :: 0 <= k < 2 * b ==> ChunkResult(x, k) == Some(s[..8 * b][4 * k..4 * k + 4])
  {
    forall k | 0 <= k < 2 * b
      ensures ChunkResult(x, k) == Some(s[..8 * b][4 * k..4 * k + 4])
    {
      ByteChunkDecodes(s, e, x, pos, b, k);
    }
  }

  lemma {:induction false} ByteChunkDecodes(s: string, e: string, x: string, pos: seq<nat>, b: nat, k: nat)
    requires NibblesAreBits(s) && e == Encoded(s) && PositionsFit(e, 16, pos) && x == Spoiled(e, 16, pos)
    requires b == |s| / 8 && |x| / 8 == 2 * b && Chunks(|e|, 16) == b && k < 2 * b
    ensures 8 * b <= |s| && ChunkResult(x, k) == Some(s[..8 * b][4 * k..4 * k + 4])
  {
    var m, h := CodewordOfByte(|s|, b, k);
    Spoiled16ChunkDecodes(s, e, x, pos, m, h, k);
    SliceOfPrefix(s, 8 * b, 4 * k, 4 * k + 4);
    SameResult(ChunkResult(x, k), s[4 * k..4 * k + 4], s[..8 * b][4 * k..4 * k + 4]);
  }

  lemma {:induction false} SameResult(r: Option<string>, a: string, c: string)
    requires r == Some(a) && a == c
    ensures r == Some(c)
  {
  }
}
