# hamm-code in Dafny

A model of `src/hamm.py`: an extended Hamming(8,4) code that corrects one bit error and detects two (SECDED). It works over Python strings of `'0'`/`'1'` characters.

- Each nibble of four data bits `d1 d2 d3 d4` becomes the eight-character codeword `p1 p2 d1 p3 d2 d3 d4 p`.
- The check bits cover nibble positions {0,1,3}, {0,2,3} and {1,2,3}, and `p` is the parity of the seven characters before it.
- The decoder compares each eight-character chunk with the sixteen entries of the table `G` in table order. It stops at the first entry at distance 0 (clean), 1 (corrected) or 2 (rejected).
- `decode` gives up on the whole stream at the first rejected chunk.
- The two error injectors flip one character per sixteen or per eight characters.

The model follows the code's own shapes.

- The loops (`byteToBits`, `parity`, `encode`, `decode`, `fromHamming` and the shared spoil loop) are methods with loop invariants. Each is proved equal to a specification function (`Encoded`, `Decoded`, `Spoiled`, `Classify`, `ParityOf`, `MsbBits`).
- `toHamming`, which is expressions only, is a function.
- The properties the program exists for are lemmas about those functions:
  - the encoder reproduces the table;
  - every codeword has even weight;
  - the table's minimum distance is 4;
  - first-match decoding therefore corrects every single error and rejects every double error;
  - `decode(encode(s))` round-trips;
  - decoding repairs the output of either injector, or rejects a codeword hit twice at different positions.

Modules, one per concern:

- `Bits`: bit strings, values, flips and Hamming distance.
- `Codebook`: the table `G` and its minimum distance.
- `Codeword`: `parity` and `toHamming`.
- `ByteBits`: `byteToBits`.
- `Encoder`: `encode`.
- `Decoder`: `fromHamming` and `decode`.
- `ErrorInjector`: the two spoil functions.
- `Correctness`: the end-to-end properties.
- `Wrappers`: `Option`, which models Python's `None`.

## Model

| member | source | states |
|---|---|---|
| Codebook.CodebookMinDistance | src/hamm.py:9-13 | Any two distinct entries of `G` differ in at least four of their eight positions. This is the SECDED property the comment claims for the table. |
| Codeword.Pick | src/hamm.py:96-99 | The collected string has one character per index, and character `k` is `s[ix[k]]`. |
| Codeword.ParityOf | src/hamm.py:93-101 | The parity string is a single bit character that makes the number of ones among the picked characters plus itself even. |
| Codeword.Parity | src/hamm.py:93-101 | The loop that collects `sub` and counts its ones returns exactly `ParityOf`. |
| Codeword.ToHamming | src/hamm.py:83-91 | The codeword is four characters longer than its input. `d1` sits at position 2 and the remaining input from position 4 on. Bit input gives bit output. |
| Codeword.Layout | src/hamm.py:86-91 | The codeword of a nibble is exactly `p1 p2 d1 p3 d2 d3 d4 p`. The groups are {0,1,3}, {0,2,3} and {1,2,3}, and `p` is the parity of the first seven. |
| Codeword.ToHammingParityChecks | src/hamm.py:86-91 | The Hamming check groups (positions 1,3,5,7; 2,3,6,7; 4,5,6,7) each hold an even number of ones, and so does the whole codeword. |
| Codeword.TableConsistency | src/hamm.py:83-91 | For every bit nibble `n`, `toHamming(n)` is `G[value of n]`, so the encoder reproduces the table. |
| Codeword.CodebookEntry | src/hamm.py:10-13 | Entry `v` of `G` is the codeword of the four-bit string of `v`, and its data positions read back `v`'s bits. |
| Codeword.DataOfToHamming | src/hamm.py:89-91 | Positions 2, 4, 5 and 6 of a codeword give back the nibble it encodes. |
| Codeword.CodebookEvenWeight | src/hamm.py:10-13 | Every entry of `G` has an even number of ones. |
| ByteBits.ByteToBits | src/hamm.py:15-30 | The mask loop yields eight bit characters whose value is the low byte of `b` (so `b` itself for a byte), written most significant bit first. |
| Bits.ValueOfMsbBits | src/hamm.py:15-30 | Reading back the `w` bits written for `v < 2^w` gives `v`. |
| Bits.MsbBitsOfValue | src/hamm.py:15-30 | Writing out the value of a bit string at its own width gives the string back. |
| Bits.FlipAtSplice | src/hamm.py:41-44 | Rebuilding the chunk as `nibble[:i] + flipped + nibble[i+1:]` is the flip at `i`. |
| Bits.FlipDistance | src/hamm.py:41-44 | One flip among the first eight characters puts the word at distance 1 from the original. |
| Bits.FlipTwiceDistance | src/hamm.py:61-64 | Flips at two different positions put the word at distance 2. |
| ErrorInjector.Spoil | src/hamm.py:35-49 | The spoil loop, for any chunk width, returns `Spoiled`: each whole chunk with the character at its position flipped. |
| ErrorInjector.SpoilOneBitInByte | src/hamm.py:32-49 | `spoilOneBitInByte` is the spoil loop with width 16. |
| ErrorInjector.SpoilTwoBitsInByte | src/hamm.py:51-69 | `spoilTwoBitsInByte` is the spoil loop with width 8. |
| ErrorInjector.SpoiledLength | src/hamm.py:37-47 | The output length is the input length rounded down to a multiple of the width. |
| ErrorInjector.SpoiledChunk | src/hamm.py:38-46 | Output chunk `k` is input chunk `k` with only the character at `pos[k]` flipped. |
| Encoder.Encoded | src/hamm.py:71-81 | The encoding of `s` has length `8 * (len(s) / 4)`. |
| Encoder.Encode | src/hamm.py:71-81 | The four-at-a-time loop returns `Encoded(s)`. |
| Encoder.EncodedChunk | src/hamm.py:76-79 | Characters `8k` to `8k+7` of the encoding are the codeword of nibble `k`. |
| Decoder.FromHamming | src/hamm.py:121-148 | The nested loops over `G` and over eight positions return the result of the first-match classification `Classify`, for any input of digit characters. |
| Decoder.ScanMeaning | src/hamm.py:124-148 | Each verdict of the scan means what it says. Undecodable holds exactly when every entry is at distance 3 or more. Clean returns the input's data bits and some entry is at distance 0. Corrected returns the data bits of an entry at distance 1. DoubleError means some entry is at distance 2. |
| Decoder.ClassifyNear | src/hamm.py:124-141 | A word within distance 1 of entry `v` decodes to `v`'s data bits, wherever `v` stands in the table, so the first match is the nearest. |
| Decoder.ClassifyDouble | src/hamm.py:143-145 | A word at distance 2 from an entry is rejected, never decoded to a wrong nibble. |
| Decoder.ClassifyDecodes | src/hamm.py:124-148 | fromHamming returns data exactly when some entry is within distance 1. |
| Decoder.Decoded | src/hamm.py:103-119 | A successful decoding has length `4 * (len(s) / 8)`. |
| Decoder.Decode | src/hamm.py:103-119 | The eight-at-a-time loop, which returns `None` at the first rejected chunk, returns `Decoded(s)`. |
| Decoder.DecodedNone | src/hamm.py:108-117 | decode fails exactly when some whole chunk is rejected. |
| Decoder.DecodedMeaning | src/hamm.py:103-119 | decode returns `r` exactly when `r` has length `4 * (len(s) / 8)` and every chunk decodes to its four characters of `r`. |
| Correctness.DecodeClean | src/hamm.py:136-137 | An undamaged codeword is classified clean, with its own nibble. |
| Correctness.CorrectSingle | src/hamm.py:139-141 | Any single flip of a codeword is classified as corrected, with the original nibble. |
| Correctness.DetectDouble | src/hamm.py:143-145 | Flips at any two distinct positions of a codeword are classified as a double error. |
| Correctness.FlipTwice | src/hamm.py:41-44 | Flipping the same position twice restores a bit string. |
| Correctness.DecodeEncoded | src/hamm.py:71-119 | `decode(encode(s))` is `s` cut to a multiple of four characters, for any string whose nibbles are bits. |
| Correctness.CorrectOnePerCodeword | src/hamm.py:51-69 | After `spoilTwoBitsInByte` (one flip per codeword, any positions), decoding the encoding still gives back every whole nibble. |
| Correctness.CorrectOnePerByte | src/hamm.py:32-49 | After `spoilOneBitInByte` (one flip per sixteen characters), decoding the encoding gives back every whole byte of the input. |
| Correctness.TwiceSpoiledChunk | src/hamm.py:57-67 | Spoiling an encoding twice with width 8: a codeword decodes to its nibble when both flips hit the same position and is rejected otherwise. |
| Correctness.DetectTwoInCodeword | src/hamm.py:51-69 | After two rounds of `spoilTwoBitsInByte`, decode fails exactly when some codeword got two different flips, and otherwise returns every whole nibble. |

## Left out

- The `__main__` block (src/hamm.py:150-184) is left out. It reads `message.txt`, writes `encoded.txt`, waits for ENTER and prints status lines, all of which is I/O.
- The `print` diagnostics in fromHamming (src/hamm.py:140, 144, 147) are replaced by the verdict tags `Corrected`, `DoubleError` and `Undecodable`. `Classify` returns the tag and `Result()` gives what fromHamming returns.
- `random.randint` (src/hamm.py:39, 59) becomes a caller-supplied sequence of positions, one per whole chunk and each inside its chunk (`PositionsFit`).
- Decoder.FromHamming requires every character of its input to be a digit `'0'`–`'9'`, because `int()` raises on anything else. The model states this as a precondition instead of modelling the exception. Decoder.Decode requires the same of every whole chunk.
- Decoder.FromHamming compares characters where the source compares `int()` values. The two agree on the ASCII digits. The non-ASCII digit characters that `int()` also accepts are not modelled.
- ByteBits.ByteToBits takes a non-negative integer. Python's `&` on a negative integer is not modelled, since the program calls it only on bytes read from a file.
- The end-to-end round-trip and correction lemmas in `Correctness` assume the nibbles of the input are bit characters. For other characters the source promises nothing, although encode accepts any characters.
- The comment on toHamming (src/hamm.py:84) names the groups (1,2,3), (2,3,4), (1,3,4). The code uses nibble positions {0,1,3}, {0,2,3} and {1,2,3}, and the model follows the code.
- The injectors are sometimes described as keeping the input's length. The code drops a trailing fragment shorter than the chunk width, and the model follows the code (`SpoiledLength`).
- Likewise, encode and decode ignore a trailing fragment shorter than 4 or 8 characters rather than rejecting it. The model drops it as the code does.
- First-match and nearest-match decoding are not given as two separate definitions. `ClassifyNear` and `ClassifyDouble` show that, for this table, the first match within distance 2 has the same outcome a nearest-match search would have.
