/** Bit strings as the program keeps them: Python strings of '0' and '1'
    characters, most significant bit first. */
module Bits {

  predicate IsBit(c: char) { c == '0' || c == '1' }

  predicate IsBits(s: string) { forall i :: 0 <= i < |s| ==> IsBit(s[i]) }

  /** The numeric value of one bit character, as `int(c)` gives it. */
  function BitValue(c: char): nat
  {
    if c == '1' then 1 else 0
  }

  /** The characters `int(c)` turns into a number; on any other character
      it raises. */
  predicate IsDigit(c: char) { '0' <= c <= '9' }

  predicate IsDigits(s: string) { forall i :: 0 <= i < |s| ==> IsDigit(s[i]) }

  /** `int(c)` on a digit character. */
  function DigitValue(c: char): (v: nat)
    requires IsDigit(c)
    ensures v < 10 && (IsBit(c) ==> v == BitValue(c))
  {
    c as int - '0' as int
  }

  function Pow2(n: nat): (p: nat)
    ensures p >= 1
  {
    if n == 0 then 1 else 2 * Pow2(n - 1)
  }

  /** Number of '1' characters in `s`, i.e. Python's `str.count(s, "1")`. */
  function Ones(s: string): (n: nat)
    ensures n <= |s|
  {
    OnesBelow(s, |s|)
  }

  /** Number of '1' characters among the first `n` of `s`. */
  function OnesBelow(s: string, n: nat): (c: nat)
    requires n <= |s|
    ensures c <= n
  {
    if n == 0 then 0 else OnesBelow(s, n - 1) + BitValue(s[n - 1])
  }

  lemma {:induction false} OnesBelowAppend(a: string, b: string, n: nat)
    requires n <= |b|
    ensures OnesBelow(a + b, |a| + n) == Ones(a) + OnesBelow(b, n)
  {
    if n > 0 {
      OnesBelowAppend(a, b, n - 1);
      assert (a + b)[|a| + n - 1] == b[n - 1];
    } else {
      OnesBelowPrefix(a, b, |a|);
    }
  }

  lemma {:induction false} OnesBelowPrefix(a: string, b: string, n: nat)
    requires n <= |a|
    ensures OnesBelow(a + b, n) == OnesBelow(a, n)
  {
    if n > 0 {
      OnesBelowPrefix(a, b, n - 1);
      assert (a + b)[n - 1] == a[n - 1];
    }
  }

  lemma {:induction false} OnesAppend(a: string, b: string)
    ensures Ones(a + b) == Ones(a) + Ones(b)
  {
    OnesBelowAppend(a, b, |b|);
  }

  /** The unsigned number a bit string denotes, most significant bit first. */
  function Value(s: string): (v: nat)
    ensures v < Pow2(|s|)
  {
    if s == [] then 0 else 2 * Value(s[..|s| - 1]) + BitValue(s[|s| - 1])
  }

  /** The `w` low bits of `v`, most significant first. */
  function MsbBits(v: nat, w: nat): (r: string)
    ensures |r| == w && IsBits(r)
  {
    if w == 0 then [] else MsbBits(v / 2, w - 1) + [if v % 2 == 1 then '1' else '0']
  }

  lemma {:induction false} ValueOfMsbBits(v: nat, w: nat)
    requires v < Pow2(w)
    ensures Value(MsbBits(v, w)) == v
  {
    if w > 0 {
      var r := MsbBits(v, w);
      assert r[..|r| - 1] == MsbBits(v / 2, w - 1);
      ValueOfMsbBits(v / 2, w - 1);
    }
  }

  lemma {:induction false} MsbBitsOfValue(s: string)
    requires IsBits(s)
    ensures MsbBits(Value(s), |s|) == s
  {
    if s != [] {
      var init := s[..|s| - 1];
      assert IsBits(init);
      MsbBitsOfValue(init);
      var c := s[|s| - 1];
      assert IsBit(c);
      HalveDoubled(Value(init), BitValue(c), Value(s));
      assert s == init + [c];
    }
  }

  /** Halving `2a + b`, for a bit `b`, gives back `a` and leaves `b`. */
  lemma {:induction false} HalveDoubled(a: nat, b: nat, v: nat)
    requires b < 2 && v == 2 * a + b
    ensures v / 2 == a && v % 2 == b
  {
  }

  /** Python's `&` on non-negative integers, bit by bit from the least
      significant end. */
  function BitAnd(x: nat, y: nat): nat
  {
    if x == 0 || y == 0 then 0
    else 2 * BitAnd(x / 2, y / 2) + (if x % 2 == 1 && y % 2 == 1 then 1 else 0)
  }

  /** Python's `x >> j` on a non-negative integer. */
  function Shr(x: nat, j: nat): nat
  {
    if j == 0 then x else Shr(x / 2, j - 1)
  }

  lemma {:induction false} ShrSucc(x: nat, j: nat)
    ensures Shr(x, j + 1) == Shr(x, j) / 2
  {
    if j > 0 { ShrSucc(x / 2, j - 1); }
  }

  lemma {:induction false} ShrSmall(x: nat, j: nat)
    requires x < Pow2(j)
    ensures Shr(x, j) == 0
  {
    if j > 0 { ShrSmall(x / 2, j - 1); }
  }

  /** Masking with a single power of two tests one bit of `x`. */
  lemma {:induction false} BitAndPow2(x: nat, j: nat)
    ensures BitAnd(x, Pow2(j)) != 0 <==> Shr(x, j) % 2 == 1
  {
    if j > 0 && x != 0 {
      BitAndPow2(x / 2, j - 1);
    } else if j > 0 {
      ShrSmall(x, j);
    }
  }

  /** The character the spoil functions write in place of `c`. */
  function FlipChar(c: char): (f: char)
    ensures f != c && IsBit(f)
    ensures IsBit(c) ==> (f == '1' <==> c == '0')
  {
    if c == '1' then '0' else '1'
  }

  /** `s` with the character at `i` flipped and every other one kept;
      FlipAtSplice shows it is the splice the injectors build. */
  function FlipAt(s: string, i: nat): (r: string)
    requires i < |s|
    ensures |r| == |s|
  {
    seq(|s|, j requires 0 <= j < |s| => if j == i then FlipChar(s[j]) else s[j])
  }

  /** Only the character at `i` changes, and it is flipped. */
  lemma {:induction false} FlipAtChars(s: string, i: nat)
    requires i < |s|
    ensures FlipAt(s, i)[i] == FlipChar(s[i])
    ensures forall j :: 0 <= j < |s| && j != i ==> FlipAt(s, i)[j] == s[j]
  {
  }

  /** The flip is the splice `s[:i] + flipped + s[i+1:]`. */
  lemma {:induction false} FlipAtSplice(s: string, i: nat)
    requires i < |s|
    ensures FlipAt(s, i) == s[..i] + [FlipChar(s[i])] + s[i + 1..]
  {
    var r := s[..i] + [FlipChar(s[i])] + s[i + 1..];
    forall j | 0 <= j < |s|
      ensures FlipAt(s, i)[j] == r[j]
    {
      if j < i {
        assert r[j] == s[..i][j];
      } else if j > i {
        assert r[j] == s[i + 1..][j - i - 1];
      }
    }
  }

  /** The 1-based positions among the first `n` at which `a` and `b` differ,
      as fromHamming collects them in `diff`. */
  function DiffPositions(a: string, b: string, n: nat): (d: seq<nat>)
    requires n <= |a| && n <= |b|
    ensures |d| <= n
    ensures forall k :: 0 <= k < |d| ==> 1 <= d[k] <= n && a[d[k] - 1] != b[d[k] - 1]
  {
    if n == 0 then []
    else DiffPositions(a, b, n - 1) + (if a[n - 1] != b[n - 1] then [n] else [])
  }

  /** Hamming distance over the first eight characters. */
  function Distance(a: string, b: string): nat
    requires |a| >= 8 && |b| >= 8
  {
    |DiffPositions(a, b, 8)|
  }

  lemma {:induction false} DiffSymmetric(a: string, b: string, n: nat)
    requires n <= |a| && n <= |b|
    ensures DiffPositions(a, b, n) == DiffPositions(b, a, n)
  {
    if n > 0 { DiffSymmetric(a, b, n - 1); }
  }

  lemma {:induction false} DistanceSymmetric(a: string, b: string)
    requires |a| >= 8 && |b| >= 8
    ensures Distance(a, b) == Distance(b, a)
  {
    DiffSymmetric(a, b, 8);
  }

  lemma {:induction false} DiffTriangle(a: string, b: string, c: string, n: nat)
    requires n <= |a| && n <= |b| && n <= |c|
    ensures |DiffPositions(a, c, n)| <= |DiffPositions(a, b, n)| + |DiffPositions(b, c, n)|
  {
    if n > 0 {
      DiffTriangle(a, b, c, n - 1);
      DiffStep(a, c, n);
      DiffStep(a, b, n);
      DiffStep(b, c, n);
    }
  }

  lemma {:induction false} DiffStep(a: string, b: string, n: nat)
    requires 0 < n <= |a| && n <= |b|
    ensures |DiffPositions(a, b, n)| == |DiffPositions(a, b, n - 1)| + (if a[n - 1] != b[n - 1] then 1 else 0)
  {
  }

  lemma {:induction false} DistanceTriangle(a: string, b: string, c: string)
    requires |a| >= 8 && |b| >= 8 && |c| >= 8
    ensures Distance(a, c) <= Distance(a, b) + Distance(b, c)
  {
    DiffTriangle(a, b, c, 8);
  }

  lemma {:induction false} DiffSelf(a: string, n: nat)
    requires n <= |a|
    ensures DiffPositions(a, a, n) == []
  {
    if n > 0 { DiffSelf(a, n - 1); }
  }

  /** Distance 0 means the first eight characters agree. */
  lemma {:induction false} DiffEmpty(a: string, b: string, n: nat)
    requires n <= |a| && n <= |b|
    ensures DiffPositions(a, b, n) == [] <==> a[..n] == b[..n]
  {
    if n > 0 {
      DiffEmpty(a, b, n - 1);
      assert a[..n] == a[..n - 1] + [a[n - 1]];
      assert b[..n] == b[..n - 1] + [b[n - 1]];
      if a[..n] == b[..n] {
        assert a[..n - 1] == a[..n][..n - 1];
        assert b[..n - 1] == b[..n][..n - 1];
      }
    }
  }

  /** When `a` and `b` differ exactly at positions `p` and `q` (possibly the
      same), that many of the first `n` positions differ. */
  lemma {:induction false} DiffCount(a: string, b: string, n: nat, p: nat, q: nat)
    requires n <= |a| && n <= |b|
    requires forall j :: 0 <= j < n ==> (a[j] != b[j] <==> j == p || j == q)
    ensures |DiffPositions(a, b, n)| == (if p < n then 1 else 0) + (if q < n && q != p then 1 else 0)
  {
    if n > 0 { DiffCount(a, b, n - 1, p, q); }
  }

  lemma {:induction false} FlipDistance(s: string, p: nat)
    requires |s| >= 8 && p < 8
    ensures Distance(FlipAt(s, p), s) == 1
  {
    FlipAtChars(s, p);
    DiffCount(FlipAt(s, p), s, 8, p, p);
  }

  lemma {:induction false} FlipTwiceDistance(s: string, p: nat, q: nat)
    requires |s| >= 8 && p < 8 && q < 8 && p != q
    ensures Distance(FlipAt(FlipAt(s, p), q), s) == 2
  {
    FlipAtChars(s, p);
    FlipAtChars(FlipAt(s, p), q);
    DiffCount(FlipAt(FlipAt(s, p), q), s, 8, p, q);
  }

  /** Chunk `k` of width `w` of `e` is chunk `k - 1` of what follows the first
      chunk. */
  lemma {:induction false} ChunkOfTail(e: string, w: nat, k: nat)
    requires 0 < k && w * k + w <= |e|
    ensures e[w * k..w * k + w] == e[w..][w * (k - 1)..w * (k - 1) + w]
  {
  }

  /** Two strings of `n` chunks of four that agree chunk by chunk are
      equal. */
  lemma {:induction false} EqualByNibbles(a: string, b: string, n: nat)
    requires |a| == 4 * n && |b| == 4 * n
    requires forall k :: 0 <= k < n ==> a[4 * k..4 * k + 4] == b[4 * k..4 * k + 4]
    ensures a == b
  {
    forall i | 0 <= i < |a|
      ensures a[i] == b[i]
    {
      var k := i / 4;
      assert 4 * k <= i < 4 * k + 4 && k < n;
      assert a[4 * k..4 * k + 4][i - 4 * k] == b[4 * k..4 * k + 4][i - 4 * k];
    }
  }

  // Arithmetic on chunk indices, kept in small lemmas of their own.

  lemma {:induction false} MulAtLeast(w: int, c: int)
    requires w > 0 && c >= 1
    ensures w * c >= w
  {
  }

  lemma {:induction false} DivUnique(x: int, w: int, q: int, r: int)
    requires w > 0 && 0 <= r < w && x == w * q + r
    ensures x / w == q && x % w == r
  {
    var d, m := x / w, x % w;
    assert x == w * d + m;
    if q > d {
      MulAtLeast(w, q - d);
    } else if q < d {
      MulAtLeast(w, d - q);
    }
  }

  /** Consuming the first chunk leaves one whole chunk fewer. */
  lemma {:induction false} DivStep(n: nat, w: nat)
    requires 0 < w <= n
    ensures (n - w) / w == n / w - 1
    ensures w * ((n - w) / w) + w == w * (n / w)
  {
    var q, r := n / w, n % w;
    assert n == w * q + r;
    assert n - w == w * (q - 1) + r;
    DivUnique(n - w, w, q - 1, r);
    assert w * (q - 1) + w == w * q;
  }

  /** A slice of a prefix is the same slice of the whole. */
  lemma {:induction false} SliceOfPrefix(s: string, m: nat, a: nat, b: nat)
    requires a <= b <= m <= |s|
    ensures s[..m][a..b] == s[a..b]
  {
  }

  /** A slice of a suffix, in terms of the whole. */
  lemma {:induction false} SliceOfDrop(x: string, y: string, a: nat, w: nat)
    requires a + w <= |x| && x[a..] == y
    ensures x[a..a + w] == y[..w]
  {
  }

  /** Dropping twice is dropping once. */
  /** `x` without its first `a` characters is `y`. */
  predicate DropsTo(x: string, a: nat, y: string)
  {
    a <= |x| && x[a..] == y
  }

  lemma {:induction false} DropChain(x: string, y: string, z: string, a: nat, b: nat, c: nat)
    requires a <= |x| && x[a..] == y && DropsTo(y, b, z) && c == a + b
    ensures DropsTo(x, c, z)
  {
    DropDrop(x, a, b);
  }

  lemma {:induction false} DropDrop(x: string, a: nat, b: nat)
    requires a + b <= |x|
    ensures x[a..][b..] == x[a + b..]
  {
  }

  /** A slice of a slice, in terms of the whole. */
  lemma {:induction false} SliceOfSlice(x: string, a: nat, b: nat, c: nat, d: nat, o: nat)
    requires a <= b <= |x| && c <= d <= b - a && o == a + c
    ensures x[a..b][c..d] == x[o..o + (d - c)]
  {
    forall i | 0 <= i < d - c
      ensures x[a..b][c..d][i] == x[o..o + (d - c)][i]
    {
      assert x[a..b][c..d][i] == x[a + c + i];
    }
  }

  /** Half `h` of a sixteen-character string with one flip: flipped where the
      flip falls in that half, copied otherwise. */
  lemma {:induction false} HalfOfFlip(c: string, j: nat, h: nat)
    requires |c| == 16 && j < 16 && h < 2
    ensures j % 8 < 8
    ensures FlipAt(c, j)[8 * h..8 * h + 8] ==
            if j / 8 == h then FlipAt(c[8 * h..8 * h + 8], j % 8) else c[8 * h..8 * h + 8]
  {
    var x, a := FlipAt(c, j)[8 * h..8 * h + 8], c[8 * h..8 * h + 8];
    assert j == 8 * (j / 8) + j % 8 && j % 8 < 8;
    FlipAtChars(c, j);
    FlipAtChars(a, j % 8);
    forall i | 0 <= i < 8
      ensures x[i] == if j / 8 == h && i == j % 8 then FlipChar(a[i]) else a[i]
    {
      assert x[i] == FlipAt(c, j)[8 * h + i] && a[i] == c[8 * h + i];
    }
    if j / 8 == h {
      assert x == FlipAt(a, j % 8);
    } else {
      assert x == a;
    }
  }

  /** Half `h` of a chunk of sixteen that `x` holds flipped at `j`. */
  /** The eight characters of `x` at `o` are those of `e`, with the one at
      `j % 8` flipped when `h` is the half `j` falls in. */
  predicate HalfFlipped(x: string, e: string, o: nat, j: nat, h: nat)
  {
    o + 8 <= |x| && o + 8 <= |e| &&
    x[o..o + 8] == if j / 8 == h then FlipAt(e[o..o + 8], j % 8) else e[o..o + 8]
  }

  lemma {:induction false} HalfOfFlippedChunk(x: string, e: string, t: nat, j: nat, h: nat, o: nat)
    requires t + 16 <= |x| && t + 16 <= |e| && j < 16 && h < 2 && o == t + 8 * h
    requires x[t..t + 16] == FlipAt(e[t..t + 16], j)
    ensures o + 8 <= |x| && j % 8 < 8 && HalfFlipped(x, e, o, j, h)
  {
    var c := e[t..t + 16];
    SliceOfSlice(x, t, t + 16, 8 * h, 8 * h + 8, o);
    SliceOfSlice(e, t, t + 16, 8 * h, 8 * h + 8, o);
    HalfOfFlip(c, j, h);
  }

  /** A string that agrees with `a` except for a flip at `j` is `a`
      flipped at `j`. */
  lemma {:induction false} FlippedCopy(x: string, a: string, j: nat)
    requires |x| == |a| && j < |a|
    requires forall i :: 0 <= i < |a| ==> x[i] == if i == j then FlipChar(a[i]) else a[i]
    ensures x == FlipAt(a, j)
  {
    FlipAtChars(a, j);
  }


  /** The `w` characters of `x` from `o` on are those of `s` with the one
      at `o + p` flipped. */
  predicate ChunkFlipped(x: string, s: string, o: nat, w: nat, p: nat)
  {
    o + w <= |x| && o + w <= |s| && p < w && x[o..o + w] == FlipAt(s[o..o + w], p)
  }

  /** A flipped chunk of `t` is the same chunk, `w` further on, of `h + t`
      when `h` is the first `w` characters of `s`, flipped. */
  lemma {:induction false} ShiftChunk(x: string, t: string, s: string, w: nat, p0: nat,
                                      o: nat, n: nat, p: nat, q: nat)
    requires w <= |s| && p0 < w && x == FlipAt(s[..w], p0) + t
    requires n == o + w && q == p && ChunkFlipped(t, s[w..], o, w, p)
    ensures ChunkFlipped(x, s, n, w, q)
  {
    assert x[n..n + w] == t[o..o + w];
    assert s[w..][o..o + w] == s[n..n + w];
  }
}
