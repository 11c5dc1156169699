/** `byteToBits`: a byte written out as eight bit characters, most
    significant first, by testing it against a mask that moves one place to
    the right per character. */
module ByteBits {
  import opened Bits

  method ByteToBits(b: nat) returns (result: string)
    ensures |result| == 8 && IsBits(result)
    ensures Value(result) == b % 256
    ensures result == MsbBits(b % 256, 8)
  {
    result := "";
    var mask := 128;
    ghost var j := 8;
    assert Pow2(7) == 128 && Pow2(8) == 256;
    while true
      invariant 1 <= j <= 8
      invariant mask == Pow2(j - 1)
      invariant |result| == 8 - j && IsBits(result)
      invariant Value(result) == Shr(b, j) % Pow2(|result|)
      decreases mask
    {
      var c := if BitAnd(b, mask) != 0 then '1' else '0';
      ReadBit(b, result, c, mask, j);
      HalveMask(mask, j);
      result := result + [c];
      j := j - 1;
      mask := mask / 2;
      if mask <= 0 {
        break;
      }
    }
    assert Shr(b, 0) == b;
    MsbBitsOfValue(result);
  }

  /** Appending a bit character doubles the value and adds the bit. */
  lemma {:induction false} AppendBit(s: string, c: char)
    ensures Value(s + [c]) == 2 * Value(s) + BitValue(c)
  {
    assert (s + [c])[..|s|] == s;
  }

  /** The bit the mask `2^i` picks out is the next bit below those already
      shifted out, `j = i + 1` of them. */
  lemma {:induction false} NextBit(b: nat, i: nat, j: nat)
    requires j == i + 1
    ensures Shr(b, i) == 2 * Shr(b, j) + (if BitAnd(b, Pow2(i)) != 0 then 1 else 0)
  {
    BitAndPow2(b, i);
    ShrSucc(b, i);
  }

  /** Appending the bit the mask picks out extends the low bits of `b`
      written so far by one more. */
  lemma {:induction false} ReadBit(b: nat, result: string, c: char, mask: nat, j: nat)
    requires 1 <= j && mask == Pow2(j - 1) && IsBits(result)
    requires Value(result) == Shr(b, j) % Pow2(|result|)
    requires c == if BitAnd(b, mask) != 0 then '1' else '0'
    ensures Value(result + [c]) == Shr(b, j - 1) % Pow2(|result + [c]|) && IsBits(result + [c])
  {
    NextBit(b, j - 1, j);
    KeepOneMore(result, c, Shr(b, j), Shr(b, j - 1));
  }

  lemma {:induction false} KeepOneMore(result: string, c: char, x: nat, y: nat)
    requires Value(result) == x % Pow2(|result|) && y == 2 * x + BitValue(c)
    ensures Value(result + [c]) == y % Pow2(|result + [c]|)
  {
    AppendBit(result, c);
    ModDouble(x, BitValue(c), |result|);
    assert |result + [c]| == |result| + 1;
  }

  /** Keeping one more low bit: `(2x + c) mod 2^(m+1)` is `2 (x mod 2^m) + c`. */
  lemma {:induction false} ModDouble(x: nat, c: nat, m: nat)
    requires c < 2
    ensures (2 * x + c) % Pow2(m + 1) == 2 * (x % Pow2(m)) + c
  {
    var p := Pow2(m);
    var q, r := x / p, x % p;
    assert Pow2(m + 1) == 2 * p;
    assert 2 * x + c == (2 * p) * q + (2 * r + c);
    DivUnique(2 * x + c, 2 * p, q, 2 * r + c);
  }

  /** Halving the mask moves it one bit down, and it reaches zero after the
      last bit. */
  lemma {:induction false} HalveMask(mask: nat, j: nat)
    requires 1 <= j && mask == Pow2(j - 1)
    ensures mask / 2 > 0 ==> j >= 2 && mask / 2 == Pow2(j - 1 - 1)
    ensures mask / 2 <= 0 ==> j == 1
  {
  }
}
