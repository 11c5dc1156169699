/** The fixed table of the sixteen extended Hamming(8,4) codewords, entry `i`
    encoding the four-bit value `i`. */
module Codebook {
  import opened Bits

  /** A table entry: eight bit characters. */
  type Entry = s: string | |s| == 8 && IsBits(s) witness "00000000"

  const G: seq<Entry> := [
    G0, G1, G2, G3, G4, G5, G6, G7, G8, G9, G10, G11, G12, G13, G14, G15]

  // The entries one by one, so that each is checked to be an Entry on its own.
  const G0: Entry := "00000000"
  const G1: Entry := "11010010"
  const G2: Entry := "01010101"
  const G3: Entry := "10000111"
  const G4: Entry := "10011001"
  const G5: Entry := "01001011"
  const G6: Entry := "11001100"
  const G7: Entry := "00011110"
  const G8: Entry := "11100001"
  const G9: Entry := "00110011"
  const G10: Entry := "10110100"
  const G11: Entry := "01100110"
  const G12: Entry := "01111000"
  const G13: Entry := "10101010"
  const G14: Entry := "00101101"
  const G15: Entry := "11111111"

  /** The data bits of a codeword, positions 2, 4, 5 and 6, as fromHamming
      reads them. */
  function DataBits(c: string): (d: string)
    requires |c| >= 7
    ensures |d| == 4 && d[0] == c[2] && d[1..] == c[4..7]
  {
    [c[2], c[4], c[5], c[6]]
  }

  /** Distinct table entries differ in at least four positions, so a word
      within distance one of an entry is at distance three or more from every
      other entry. */
  lemma {:induction false} CodebookMinDistance(i: nat, j: nat)
    requires i < 16 && j < 16 && i != j
    ensures Distance(G[i], G[j]) >= 4
  {
    if i > j {
      CodebookMinDistance(j, i);
      DistanceSymmetric(G[i], G[j]);
    } else {
      if i == 0 {
        DistanceRow0(j);
      } else if i == 1 {
        DistanceRow1(j);
      } else if i == 2 {
        DistanceRow2(j);
      } else if i == 3 {
        DistanceRow3(j);
      } else if i == 4 {
        DistanceRow4(j);
      } else if i == 5 {
        DistanceRow5(j);
      } else if i == 6 {
        DistanceRow6(j);
      } else if i == 7 {
        DistanceRow7(j);
      } else if i == 8 {
        DistanceRow8(j);
      } else if i == 9 {
        DistanceRow9(j);
      } else if i == 10 {
        DistanceRow10(j);
      } else if i == 11 {
        DistanceRow11(j);
      } else if i == 12 {
        DistanceRow12(j);
      } else if i == 13 {
        DistanceRow13(j);
      } else {
        DistanceRow14(j);
      }
    }
  }

  // One lemma per row of the upper triangle of the distance table.

  lemma {:induction false} DistanceRow0(j: nat)
    requires 0 < j < 16
    ensures Distance(G[0], G[j]) >= 4
  {
    if j < 8 {
      DistanceRow0Low(j);
    } else {
      DistanceRow0High(j);
    }
  }

  lemma {:induction false} DistanceRow0Low(j: nat)
    requires 0 < j < 8
    ensures Distance(G[0], G[j]) >= 4
  {
    if j == 1 {} else if j == 2 {} else if j == 3 {} else if j == 4 {} else if j == 5 {} else if j == 6 {} else {}
  }

  lemma {:induction false} DistanceRow0High(j: nat)
    requires 8 <= j < 16
    ensures Distance(G[0], G[j]) >= 4
  {
    if j == 8 {} else if j == 9 {} else if j == 10 {} else if j == 11 {} else if j == 12 {} else if j == 13 {} else if j == 14 {} else {}
  }

  lemma {:induction false} DistanceRow1(j: nat)
    requires 1 < j < 16
    ensures Distance(G[1], G[j]) >= 4
  {
    if j < 8 {
      DistanceRow1Low(j);
    } else {
      DistanceRow1High(j);
    }
  }

  lemma {:induction false} DistanceRow1Low(j: nat)
    requires 1 < j < 8
    ensures Distance(G[1], G[j]) >= 4
  {
    if j == 2 {} else if j == 3 {} else if j == 4 {} else if j == 5 {} else if j == 6 {} else {}
  }

  lemma {:induction false} DistanceRow1High(j: nat)
    requires 8 <= j < 16
    ensures Distance(G[1], G[j]) >= 4
  {
    if j == 8 {} else if j == 9 {} else if j == 10 {} else if j == 11 {} else if j == 12 {} else if j == 13 {} else if j == 14 {} else {}
  }

  lemma {:induction false} DistanceRow2(j: nat)
    requires 2 < j < 16
    ensures Distance(G[2], G[j]) >= 4
  {
    if j < 8 {
      DistanceRow2Low(j);
    } else {
      DistanceRow2High(j);
    }
  }

  lemma {:induction false} DistanceRow2Low(j: nat)
    requires 2 < j < 8
    ensures Distance(G[2], G[j]) >= 4
  {
    if j == 3 {} else if j == 4 {} else if j == 5 {} else if j == 6 {} else {}
  }

  lemma {:induction false} DistanceRow2High(j: nat)
    requires 8 <= j < 16
    ensures Distance(G[2], G[j]) >= 4
  {
    if j == 8 {} else if j == 9 {} else if j == 10 {} else if j == 11 {} else if j == 12 {} else if j == 13 {} else if j == 14 {} else {}
  }

  lemma {:induction false} DistanceRow3(j: nat)
    requires 3 < j < 16
    ensures Distance(G[3], G[j]) >= 4
  {
    if j < 8 {
      DistanceRow3Low(j);
    } else {
      DistanceRow3High(j);
    }
  }

  lemma {:induction false} DistanceRow3Low(j: nat)
    requires 3 < j < 8
    ensures Distance(G[3], G[j]) >= 4
  {
    if j == 4 {} else if j == 5 {} else if j == 6 {} else {}
  }

  lemma {:induction false} DistanceRow3High(j: nat)
    requires 8 <= j < 16
    ensures Distance(G[3], G[j]) >= 4
  {
    if j == 8 {} else if j == 9 {} else if j == 10 {} else if j == 11 {} else if j == 12 {} else if j == 13 {} else if j == 14 {} else {}
  }

  lemma {:induction false} DistanceRow4(j: nat)
    requires 4 < j < 16
    ensures Distance(G[4], G[j]) >= 4
  {
    if j == 5 {} else if j == 6 {} else if j == 7 {} else if j == 8 {} else if j == 9 {} else if j == 10 {} else if j == 11 {} else if j == 12 {} else if j == 13 {} else if j == 14 {} else {}
  }

  lemma {:induction false} DistanceRow5(j: nat)
    requires 5 < j < 16
    ensures Distance(G[5], G[j]) >= 4
  {
    if j == 6 {} else if j == 7 {} else if j == 8 {} else if j == 9 {} else if j == 10 {} else if j == 11 {} else if j == 12 {} else if j == 13 {} else if j == 14 {} else {}
  }

  lemma {:induction false} DistanceRow6(j: nat)
    requires 6 < j < 16
    ensures Distance(G[6], G[j]) >= 4
  {
    if j == 7 {} else if j == 8 {} else if j == 9 {} else if j == 10 {} else if j == 11 {} else if j == 12 {} else if j == 13 {} else if j == 14 {} else {}
  }

  lemma {:induction false} DistanceRow7(j: nat)
    requires 7 < j < 16
    ensures Distance(G[7], G[j]) >= 4
  {
    if j == 8 {} else if j == 9 {} else if j == 10 {} else if j == 11 {} else if j == 12 {} else if j == 13 {} else if j == 14 {} else {}
  }

  lemma {:induction false} DistanceRow8(j: nat)
    requires 8 < j < 16
    ensures Distance(G[8], G[j]) >= 4
  {
    if j == 9 {} else if j == 10 {} else if j == 11 {} else if j == 12 {} else if j == 13 {} else if j == 14 {} else {}
  }

  lemma {:induction false} DistanceRow9(j: nat)
    requires 9 < j < 16
    ensures Distance(G[9], G[j]) >= 4
  {
    if j == 10 {} else if j == 11 {} else if j == 12 {} else if j == 13 {} else if j == 14 {} else {}
  }

  lemma {:induction false} DistanceRow10(j: nat)
    requires 10 < j < 16
    ensures Distance(G[10], G[j]) >= 4
  {
    if j == 11 {} else if j == 12 {} else if j == 13 {} else if j == 14 {} else {}
  }

  lemma {:induction false} DistanceRow11(j: nat)
    requires 11 < j < 16
    ensures Distance(G[11], G[j]) >= 4
  {
    if j == 12 {} else if j == 13 {} else if j == 14 {} else {}
  }

  lemma {:induction false} DistanceRow12(j: nat)
    requires 12 < j < 16
    ensures Distance(G[12], G[j]) >= 4
  {
    if j == 13 {} else if j == 14 {} else {}
  }

  lemma {:induction false} DistanceRow13(j: nat)
    requires 13 < j < 16
    ensures Distance(G[13], G[j]) >= 4
  {
    if j == 14 {} else {}
  }

  lemma {:induction false} DistanceRow14(j: nat)
    requires 14 < j < 16
    ensures Distance(G[14], G[j]) >= 4
  {
    {}
  }
}
