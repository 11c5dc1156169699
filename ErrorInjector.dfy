/** The error injectors used to exercise the decoder: in every chunk of
    `width` characters one character is flipped, at a position the program
    draws at random and the model takes as a parameter. */
module ErrorInjector {
  import opened Bits

  /** How many whole chunks of `width` the loop consumes from `n`
      characters. */
  function Chunks(n: nat, width: nat): nat
    requires width > 0
    decreases n
  {
    if n < width then 0 else 1 + Chunks(n - width, width)
  }

  /** Where chunk `k` starts. */
  function Offset(width: nat, k: nat): nat
  {
    if k == 0 then 0 else Offset(width, k - 1) + width
  }

  /** There is a position for every whole chunk, and each lies inside its
      chunk, as `randint(0, width - 1)` guarantees. */
  predicate PositionsFit(s: string, width: nat, pos: seq<nat>)
    requires width > 0
  {
    |pos| >= Chunks(|s|, width) && forall k :: 0 <= k < Chunks(|s|, width) ==> pos[k] < width
  }

  lemma {:induction false} PositionsFitTail(s: string, width: nat, pos: seq<nat>)
    requires 0 < width <= |s| && PositionsFit(s, width, pos)
    ensures Chunks(|s[width..]|, width) == Chunks(|s|, width) - 1
    ensures pos[0] < width && PositionsFit(s[width..], width, pos[1..])
  {
  }

  /** The spoil loops as a function: each whole chunk with the character at
      its position flipped; a trailing fragment shorter than `width` is
      dropped. */
  function Spoiled(s: string, width: nat, pos: seq<nat>): (r: string)
    requires width > 0 && PositionsFit(s, width, pos)
    ensures |r| <= |s|
    decreases |s|
  {
    if |s| < width then []
    else
      PositionsFitTail(s, width, pos);
      FlipAt(s[..width], pos[0]) + Spoiled(s[width..], width, pos[1..])
  }

  lemma {:induction false} SpoilStep(done: string, rest: string, width: nat, pos: seq<nat>)
    requires 0 < width <= |rest| && PositionsFit(rest, width, pos)
    ensures pos[0] < width && PositionsFit(rest[width..], width, pos[1..])
    ensures done + Spoiled(rest, width, pos) ==
            (done + FlipAt(rest[..width], pos[0])) + Spoiled(rest[width..], width, pos[1..])
  {
    PositionsFitTail(rest, width, pos);
  }

  /** The loop shared by spoilOneBitInByte and spoilTwoBitsInByte: take a
      chunk, rebuild it with the character at the drawn position replaced,
      append it. */
  method Spoil(s: string, width: nat, positions: seq<nat>) returns (spoiled: string)
    requires width > 0 && PositionsFit(s, width, positions)
    ensures spoiled == Spoiled(s, width, positions)
  {
    spoiled := "";
    var rest := s;
    var t := 0;
    while |rest| >= width
      invariant t <= |positions|
      invariant PositionsFit(rest, width, positions[t..])
      invariant spoiled + Spoiled(rest, width, positions[t..]) == Spoiled(s, width, positions)
      decreases |rest|
    {
      SpoilStep(spoiled, rest, width, positions[t..]);
      assert positions[t..][1..] == positions[t + 1..];
      var nibble := rest[0..width];
      var i := positions[t];
      assert nibble == rest[..width];
      FlipAtSplice(nibble, i);
      if nibble[i] == '1' {
        nibble := nibble[..i] + "0" + nibble[i + 1..];
      } else {
        nibble := nibble[..i] + "1" + nibble[i + 1..];
      }
      assert nibble == FlipAt(rest[..width], i);
      spoiled := spoiled + nibble;
      rest := rest[width..];
      t := t + 1;
    }
    assert spoiled + [] == spoiled;
  }

  /** `spoilOneBitInByte`: one flip in every sixteen characters, i.e. in one
      of the two codewords of each encoded byte. */
  method SpoilOneBitInByte(s: string, positions: seq<nat>) returns (spoiled: string)
    requires PositionsFit(s, 16, positions)
    ensures spoiled == Spoiled(s, 16, positions)
  {
    spoiled := Spoil(s, 16, positions);
  }

  /** `spoilTwoBitsInByte`: one flip in every eight characters, i.e. in each
      codeword. */
  method SpoilTwoBitsInByte(s: string, positions: seq<nat>) returns (spoiled: string)
    requires PositionsFit(s, 8, positions)
    ensures spoiled == Spoiled(s, 8, positions)
  {
    spoiled := Spoil(s, 8, positions);
  }

  /** The whole chunks end inside the input, in order. */
  lemma {:induction false} OffsetBound(n: nat, width: nat, k: nat)
    requires width > 0 && k < Chunks(n, width)
    ensures Offset(width, k) + width <= Offset(width, Chunks(n, width)) <= n
    decreases n
  {
    if k > 0 {
      OffsetBound(n - width, width, k - 1);
    } else {
      ChunksFit(n - width, width);
    }
  }

  lemma {:induction false} ChunksFit(n: nat, width: nat)
    requires width > 0
    ensures Offset(width, Chunks(n, width)) <= n
    decreases n
  {
    if n >= width {
      ChunksFit(n - width, width);
      OffsetSucc(width, Chunks(n - width, width));
    }
  }

  lemma {:induction false} OffsetSucc(width: nat, k: nat)
    ensures Offset(width, k + 1) == Offset(width, k) + width
  {
  }

  /** Chunk `k` of the output is chunk `k` of the input with the character at
      `pos[k]` flipped; by FlipAtChars, nothing else in the chunk changes. */
  lemma {:induction false} SpoiledChunk(s: string, width: nat, pos: seq<nat>, k: nat)
    requires width > 0 && PositionsFit(s, width, pos) && k < Chunks(|s|, width)
    ensures k < |pos| && ChunkFlipped(Spoiled(s, width, pos), s, Offset(width, k), width, pos[k])
    decreases k
  {
    SpoiledCons(s, width, pos);
    if k == 0 {
      SpoiledHeadChunk(Spoiled(s, width, pos), Spoiled(s[width..], width, pos[1..]), s, width, pos[0]);
    } else {
      SpoiledChunk(s[width..], width, pos[1..], k - 1);
      OffsetSucc(width, k - 1);
      assert pos[1..][k - 1] == pos[k];
      ShiftChunk(Spoiled(s, width, pos), Spoiled(s[width..], width, pos[1..]), s, width, pos[0],
                 Offset(width, k - 1), Offset(width, k), pos[1..][k - 1], pos[k]);
    }
  }

  /** One chunk of the output followed by the output for the rest. */
  lemma {:induction false} SpoiledCons(s: string, width: nat, pos: seq<nat>)
    requires 0 < width <= |s| && PositionsFit(s, width, pos)
    ensures Chunks(|s[width..]|, width) == Chunks(|s|, width) - 1
    ensures pos[0] < width && PositionsFit(s[width..], width, pos[1..])
    ensures Spoiled(s, width, pos) == FlipAt(s[..width], pos[0]) + Spoiled(s[width..], width, pos[1..])
  {
    PositionsFitTail(s, width, pos);
  }

  lemma {:induction false} SpoiledHeadChunk(x: string, t: string, s: string, w: nat, p: nat)
    requires w <= |s| && p < w && x == FlipAt(s[..w], p) + t
    ensures Offset(w, 0) == 0 && ChunkFlipped(x, s, 0, w, p)
  {
    assert x[0..w] == FlipAt(s[..w], p);
    assert s[0..w] == s[..w];
  }

  /** For the widths the program uses, chunk `k` starts at `width * k` and
      there are `n / width` whole chunks. */
  lemma {:induction false} OffsetIsProduct(width: nat, k: nat)
    ensures Offset(width, k) == width * k
  {
    if k > 0 {
      OffsetIsProduct(width, k - 1);
      assert width * k == width * (k - 1) + width;
    }
  }

  lemma {:induction false} ChunksIsQuotient(n: nat, width: nat)
    requires width > 0
    ensures Chunks(n, width) == n / width
    decreases n
  {
    if n >= width {
      ChunksIsQuotient(n - width, width);
      DivStep(n, width);
    } else {
      DivUnique(n, width, 0, n);
    }
  }

  /** The output is the input cut down to a whole number of chunks. */
  lemma {:induction false} SpoiledLength(s: string, width: nat, pos: seq<nat>)
    requires width > 0 && PositionsFit(s, width, pos)
    ensures |Spoiled(s, width, pos)| == width * (|s| / width) <= |s|
  {
    ChunksIsQuotient(|s|, width);
    OffsetIsProduct(width, |s| / width);
    SpoiledSize(s, width, pos);
  }

  lemma {:induction false} SpoiledSize(s: string, width: nat, pos: seq<nat>)
    requires width > 0 && PositionsFit(s, width, pos)
    ensures |Spoiled(s, width, pos)| == Offset(width, Chunks(|s|, width))
    decreases |s|
  {
    if |s| >= width {
      PositionsFitTail(s, width, pos);
      SpoiledSize(s[width..], width, pos[1..]);
      OffsetSucc(width, Chunks(|s[width..]|, width));
    }
  }
}
