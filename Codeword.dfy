/** One codeword: four data bits d1 d2 d3 d4 laid out with their check bits
    as p1 p2 d1 p3 d2 d3 d4 p. */
module Codeword {
  import opened Bits
  import opened Codebook

  predicate InRange(s: string, ix: seq<nat>)
  {
    forall k :: 0 <= k < |ix| ==> ix[k] < |s|
  }

  /** The characters of `s` at the indices `ix`, in the order of `ix`. */
  function Pick(s: string, ix: seq<nat>): (sub: string)
    requires InRange(s, ix)
    ensures |sub| == |ix|
    ensures forall k :: 0 <= k < |ix| ==> sub[k] == s[ix[k]]
  {
    if ix == [] then [] else Pick(s, ix[..|ix| - 1]) + [s[ix[|ix| - 1]]]
  }

  /** The parity character of the characters of `s` at `ix`: appended to
      them it makes the number of ones even. */
  function ParityOf(s: string, ix: seq<nat>): (p: string)
    requires InRange(s, ix)
    ensures |p| == 1 && IsBit(p[0])
    ensures (Ones(Pick(s, ix)) + Ones(p)) % 2 == 0
  {
    if Ones(Pick(s, ix)) % 2 == 1 then "1" else "0"
  }

  /** `parity`: collects the selected characters in a loop, then counts the
      ones modulo two. */
  method Parity(s: string, ix: seq<nat>) returns (p: string)
    requires InRange(s, ix)
    ensures p == ParityOf(s, ix)
  {
    var sub := "";
    for k := 0 to |ix|
      invariant sub == Pick(s, ix[..k])
    {
      assert ix[..k + 1][..k] == ix[..k];
      sub := sub + [s[ix[k]]];
    }
    assert ix[..|ix|] == ix;
    p := if Ones(sub) % 2 == 1 then "1" else "0";
  }

  /** `toHamming`: the check bits cover nibble positions {0,1,3}, {0,2,3} and
      {1,2,3}; the last bit is the parity of the seven before it. */
  function ToHamming(bits: string): (c: string)
    requires |bits| >= 4
    ensures |c| == |bits| + 4
    ensures c[2] == bits[0] && c[4..|bits| + 3] == bits[1..]
    ensures IsBits(bits) ==> IsBits(c)
  {
    var p1 := ParityOf(bits, [0, 1, 3]);
    var p2 := ParityOf(bits, [0, 2, 3]);
    var p3 := ParityOf(bits, [1, 2, 3]);
    var head := p1 + p2 + bits[..1] + p3 + bits[1..];
    var p := ParityOf(head, [0, 1, 2, 3, 4, 5, 6]);
    Interleave(bits, p1, p2, p3, p, head);
    head + p
  }

  /** Where the data bits land when check characters are put around them. */
  lemma {:induction false} Interleave(bits: string, p1: string, p2: string, p3: string, p: string, head: string)
    requires |bits| >= 4 && |p1| == 1 && |p2| == 1 && |p3| == 1 && |p| == 1
    requires IsBit(p1[0]) && IsBit(p2[0]) && IsBit(p3[0]) && IsBit(p[0])
    requires head == p1 + p2 + bits[..1] + p3 + bits[1..]
    ensures |head + p| == |bits| + 4
    ensures (head + p)[2] == bits[0] && (head + p)[4..|bits| + 3] == bits[1..]
    ensures IsBits(bits) ==> IsBits(head + p)
  {
    var c := head + p;
    assert c[4..|bits| + 3] == bits[1..] by {
      forall i | 0 <= i < |bits| - 1
        ensures c[4..|bits| + 3][i] == bits[1..][i]
      {
        assert c[4 + i] == head[4 + i] == bits[1 + i];
      }
    }
    if IsBits(bits) {
      forall i | 0 <= i < |c|
        ensures IsBit(c[i])
      {
        if i == 2 {
          assert c[i] == bits[0];
        } else if 4 <= i < |bits| + 3 {
          assert c[i] == bits[i - 3];
        }
      }
    }
  }

  /** The parity character of `k` ones. */
  function ParChar(k: nat): (c: char)
    ensures BitValue(c) == k % 2 && IsBit(c)
  {
    if k % 2 == 1 then '1' else '0'
  }

  lemma {:induction false} Ones3(s: string)
    requires |s| == 3
    ensures Ones(s) == BitValue(s[0]) + BitValue(s[1]) + BitValue(s[2])
  {
    assert OnesBelow(s, 1) == BitValue(s[0]);
    assert OnesBelow(s, 2) == BitValue(s[0]) + BitValue(s[1]);
  }

  lemma {:induction false} Ones7(s: string)
    requires |s| == 7
    ensures Ones(s) == BitValue(s[0]) + BitValue(s[1]) + BitValue(s[2]) + BitValue(s[3])
                       + BitValue(s[4]) + BitValue(s[5]) + BitValue(s[6])
  {
    assert OnesBelow(s, 2) == BitValue(s[0]) + BitValue(s[1]);
    assert OnesBelow(s, 4) == OnesBelow(s, 2) + BitValue(s[2]) + BitValue(s[3]);
    assert OnesBelow(s, 6) == OnesBelow(s, 4) + BitValue(s[4]) + BitValue(s[5]);
  }

  lemma {:induction false} ParityOf3(s: string, i: nat, j: nat, k: nat)
    requires i < |s| && j < |s| && k < |s|
    ensures ParityOf(s, [i, j, k]) == [ParChar(BitValue(s[i]) + BitValue(s[j]) + BitValue(s[k]))]
  {
    Ones3(Pick(s, [i, j, k]));
  }

  lemma {:induction false} ParityOf7(s: string)
    requires |s| == 7
    ensures ParityOf(s, [0, 1, 2, 3, 4, 5, 6]) ==
            [ParChar(BitValue(s[0]) + BitValue(s[1]) + BitValue(s[2]) + BitValue(s[3])
                     + BitValue(s[4]) + BitValue(s[5]) + BitValue(s[6]))]
  {
    Ones7(Pick(s, [0, 1, 2, 3, 4, 5, 6]));
  }

  /** `c` is the codeword of the nibble `n`, bit by bit: p1 p2 d1 p3 d2 d3
      d4 p. */
  predicate LaidOut(c: string, n: string)
    requires |n| == 4
  {
    var p1 := ParChar(BitValue(n[0]) + BitValue(n[1]) + BitValue(n[3]));
    var p2 := ParChar(BitValue(n[0]) + BitValue(n[2]) + BitValue(n[3]));
    var p3 := ParChar(BitValue(n[1]) + BitValue(n[2]) + BitValue(n[3]));
    c == [p1, p2, n[0], p3, n[1], n[2], n[3],
          ParChar(BitValue(p1) + BitValue(p2) + BitValue(n[0]) + BitValue(p3)
                  + BitValue(n[1]) + BitValue(n[2]) + BitValue(n[3]))]
  }

  lemma {:induction false} Layout(n: string)
    requires |n| == 4
    ensures LaidOut(ToHamming(n), n)
  {
    ParityOf3(n, 0, 1, 3);
    ParityOf3(n, 0, 2, 3);
    ParityOf3(n, 1, 2, 3);
    var p1, p2, p3 := ParityOf(n, [0, 1, 3]), ParityOf(n, [0, 2, 3]), ParityOf(n, [1, 2, 3]);
    var head := p1 + p2 + n[..1] + p3 + n[1..];
    ParityOf7(head);
    LaidOutFrom(n, p1, p2, p3, ParityOf(head, [0, 1, 2, 3, 4, 5, 6]), head);
  }

  lemma {:induction false} LaidOutFrom(n: string, p1: string, p2: string, p3: string, p: string, head: string)
    requires |n| == 4
    requires p1 == [ParChar(BitValue(n[0]) + BitValue(n[1]) + BitValue(n[3]))]
    requires p2 == [ParChar(BitValue(n[0]) + BitValue(n[2]) + BitValue(n[3]))]
    requires p3 == [ParChar(BitValue(n[1]) + BitValue(n[2]) + BitValue(n[3]))]
    requires head == p1 + p2 + n[..1] + p3 + n[1..] && |head| == 7
    requires p == [ParChar(BitValue(head[0]) + BitValue(head[1]) + BitValue(head[2]) + BitValue(head[3])
                           + BitValue(head[4]) + BitValue(head[5]) + BitValue(head[6]))]
    ensures LaidOut(head + p, n)
  {
    assert head == [p1[0], p2[0], n[0], p3[0], n[1], n[2], n[3]];
  }

  /** The three check groups of the codeword (Hamming positions 1,3,5,7;
      2,3,6,7; 4,5,6,7) and the whole codeword have an even number of ones. */
  lemma {:induction false} ToHammingParityChecks(n: string)
    requires |n| == 4
    ensures var c := ToHamming(n);
            (BitValue(c[0]) + BitValue(c[2]) + BitValue(c[4]) + BitValue(c[6])) % 2 == 0 &&
            (BitValue(c[1]) + BitValue(c[2]) + BitValue(c[5]) + BitValue(c[6])) % 2 == 0 &&
            (BitValue(c[3]) + BitValue(c[4]) + BitValue(c[5]) + BitValue(c[6])) % 2 == 0 &&
            Ones(c) % 2 == 0
  {
    Layout(n);
    LaidOutChecks(ToHamming(n), n);
  }

  lemma {:induction false} LaidOutChecks(c: string, n: string)
    requires |n| == 4 && LaidOut(c, n)
    ensures (BitValue(c[0]) + BitValue(c[2]) + BitValue(c[4]) + BitValue(c[6])) % 2 == 0
    ensures (BitValue(c[1]) + BitValue(c[2]) + BitValue(c[5]) + BitValue(c[6])) % 2 == 0
    ensures (BitValue(c[3]) + BitValue(c[4]) + BitValue(c[5]) + BitValue(c[6])) % 2 == 0
    ensures Ones(c) % 2 == 0
  {
    OnesAppend(c[..7], c[7..]);
    assert c == c[..7] + c[7..];
    Ones7(c[..7]);
    assert Ones(c[7..]) == BitValue(c[7]) by {
      assert OnesBelow(c[7..], 1) == BitValue(c[7..][0]);
    }
  }

  lemma {:induction false} Value4(n: string)
    requires |n| == 4
    ensures Value(n) == 8 * BitValue(n[0]) + 4 * BitValue(n[1]) + 2 * BitValue(n[2]) + BitValue(n[3])
  {
    var n3, n2, n1 := n[..3], n[..2], n[..1];
    assert n3[..2] == n2 && n2[..1] == n1 && n1[..0] == [];
    assert Value(n1) == BitValue(n[0]);
    assert Value(n2) == 2 * BitValue(n[0]) + BitValue(n[1]);
    assert Value(n3) == 4 * BitValue(n[0]) + 2 * BitValue(n[1]) + BitValue(n[2]);
  }

  /** The encoder reproduces the table: the codeword of a nibble is the
      table entry indexed by the nibble's value. */
  lemma {:induction false} TableConsistency(n: string)
    requires IsBits(n) && |n| == 4
    ensures Value(n) < 16 && ToHamming(n) == G[Value(n)]
  {
    Value4(n);
    TableByBits(n);
  }

  lemma {:induction false} TableByBits(n: string)
    requires IsBits(n) && |n| == 4
    ensures ToHamming(n) == G[8 * BitValue(n[0]) + 4 * BitValue(n[1]) + 2 * BitValue(n[2]) + BitValue(n[3])]
  {
    assert IsBit(n[0]) && IsBit(n[1]);
    Layout(n);
    if n[0] == '0' && n[1] == '0' {
      TableQuarter0(ToHamming(n), n);
    } else if n[0] == '0' && n[1] == '1' {
      TableQuarter1(ToHamming(n), n);
    } else if n[0] == '1' && n[1] == '0' {
      TableQuarter2(ToHamming(n), n);
    } else {
      TableQuarter3(ToHamming(n), n);
    }
  }

  lemma {:induction false} TableQuarter0(c: string, n: string)
    requires IsBits(n) && |n| == 4 && LaidOut(c, n) && n[0] == '0' && n[1] == '0'
    ensures c == G[0 + 2 * BitValue(n[2]) + BitValue(n[3])]
  {
    assert IsBit(n[2]) && IsBit(n[3]);
    if n[2] == '0' && n[3] == '0' {
      assert c == G[0];
    } else if n[2] == '0' && n[3] == '1' {
      assert c == G[1];
    } else if n[2] == '1' && n[3] == '0' {
      assert c == G[2];
    } else {
      assert c == G[3];
    }
  }

  lemma {:induction false} TableQuarter1(c: string, n: string)
    requires IsBits(n) && |n| == 4 && LaidOut(c, n) && n[0] == '0' && n[1] == '1'
    ensures c == G[4 + 2 * BitValue(n[2]) + BitValue(n[3])]
  {
    assert IsBit(n[2]) && IsBit(n[3]);
    if n[2] == '0' && n[3] == '0' {
      assert c == G[4];
    } else if n[2] == '0' && n[3] == '1' {
      assert c == G[5];
    } else if n[2] == '1' && n[3] == '0' {
      assert c == G[6];
    } else {
      assert c == G[7];
    }
  }

  lemma {:induction false} TableQuarter2(c: string, n: string)
    requires IsBits(n) && |n| == 4 && LaidOut(c, n) && n[0] == '1' && n[1] == '0'
    ensures c == G[8 + 2 * BitValue(n[2]) + BitValue(n[3])]
  {
    assert IsBit(n[2]) && IsBit(n[3]);
    if n[2] == '0' && n[3] == '0' {
      assert c == G[8];
    } else if n[2] == '0' && n[3] == '1' {
      assert c == G[9];
    } else if n[2] == '1' && n[3] == '0' {
      assert c == G[10];
    } else {
      assert c == G[11];
    }
  }

  lemma {:induction false} TableQuarter3(c: string, n: string)
    requires IsBits(n) && |n| == 4 && LaidOut(c, n) && n[0] == '1' && n[1] == '1'
    ensures c == G[12 + 2 * BitValue(n[2]) + BitValue(n[3])]
  {
    assert IsBit(n[2]) && IsBit(n[3]);
    if n[2] == '0' && n[3] == '0' {
      assert c == G[12];
    } else if n[2] == '0' && n[3] == '1' {
      assert c == G[13];
    } else if n[2] == '1' && n[3] == '0' {
      assert c == G[14];
    } else {
      assert c == G[15];
    }
  }

  /** Entry `v` of the table is the codeword of the four-bit string of `v`. */
  lemma {:induction false} CodebookEntry(v: nat)
    requires v < 16
    ensures G[v] == ToHamming(MsbBits(v, 4))
    ensures DataBits(G[v]) == MsbBits(v, 4)
  {
    ValueOfMsbBits(v, 4);
    TableConsistency(MsbBits(v, 4));
    DataOfToHamming(MsbBits(v, 4));
  }

  /** Reading the data positions of a codeword gives back the nibble. */
  lemma {:induction false} DataOfToHamming(n: string)
    requires |n| == 4
    ensures DataBits(ToHamming(n)) == n
  {
    var c := ToHamming(n);
    assert c[4..7] == n[1..];
  }

  /** Every table entry has an even number of ones: its last bit is the
      overall parity of the first seven. */
  lemma {:induction false} CodebookEvenWeight(v: nat)
    requires v < 16
    ensures Ones(G[v]) % 2 == 0
  {
    CodebookEntry(v);
    ToHammingParityChecks(MsbBits(v, 4));
  }
}
