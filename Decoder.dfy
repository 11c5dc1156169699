/** The decoder: each eight-bit chunk is compared with the table entries in
    table order and decoded, corrected or rejected. */
module Decoder {
  import opened Wrappers
  import opened Bits
  import opened Codebook

  /** What fromHamming concluded about one chunk; the tag replaces the
      diagnostic it prints. */
  datatype Verdict = Clean(data: string) | Corrected(data: string) | DoubleError | Undecodable
  {
    /** What fromHamming returns: the data bits, or `None`. */
    function Result(): Option<string>
    {
      match this
      case Clean(d) => Some(d)
      case Corrected(d) => Some(d)
      case _ => None
    }
  }

  /** The scan of fromHamming from table entry `k` on: it stops at the first
      entry at distance 0, 1 or 2. */
  function Scan(bits: string, k: nat): (v: Verdict)
    requires |bits| >= 8 && k <= 16
    ensures v.Result().Some? ==> |v.Result().value| == 4
    decreases 16 - k
  {
    if k == 16 then Undecodable
    else
      var d := Distance(bits, G[k]);
      if d == 0 then Clean(DataBits(bits))
      else if d == 1 then Corrected(DataBits(G[k]))
      else if d == 2 then DoubleError
      else Scan(bits, k + 1)
  }

  /** What each verdict of the scan means about the distances to the table
      entries from `k` on. */
  lemma {:induction false} ScanMeaning(bits: string, k: nat)
    requires |bits| >= 8 && k <= 16
    ensures var v := Scan(bits, k);
            (v.Undecodable? <==> forall j :: k <= j < 16 ==> Distance(bits, G[j]) >= 3) &&
            (v.Clean? ==> v.data == DataBits(bits) &&
                          exists j :: k <= j < 16 && Distance(bits, G[j]) == 0) &&
            (v.Corrected? ==> exists j :: k <= j < 16 && Distance(bits, G[j]) == 1 &&
                                          v.data == DataBits(G[j])) &&
            (v.DoubleError? ==> exists j :: k <= j < 16 && Distance(bits, G[j]) == 2)
  {
    ScanUndecodable(bits, k);
    ScanClean(bits, k);
    ScanCorrected(bits, k);
    ScanDoubleError(bits, k);
  }

  lemma {:induction false} ScanUndecodable(bits: string, k: nat)
    requires |bits| >= 8 && k <= 16
    ensures Scan(bits, k).Undecodable? <==> forall j :: k <= j < 16 ==> Distance(bits, G[j]) >= 3
    decreases 16 - k
  {
    if k < 16 {
      if Distance(bits, G[k]) > 2 {
        ScanUndecodable(bits, k + 1);
        assert Scan(bits, k) == Scan(bits, k + 1);
      } else {
        assert !Scan(bits, k).Undecodable?;
      }
    }
  }

  lemma {:induction false} ScanClean(bits: string, k: nat)
    requires |bits| >= 8 && k <= 16
    ensures Scan(bits, k).Clean? ==> Scan(bits, k).data == DataBits(bits) &&
                                     exists j :: k <= j < 16 && Distance(bits, G[j]) == 0
    decreases 16 - k
  {
    if k < 16 && Distance(bits, G[k]) > 2 {
      ScanClean(bits, k + 1);
    }
  }

  lemma {:induction false} ScanCorrected(bits: string, k: nat)
    requires |bits| >= 8 && k <= 16
    ensures Scan(bits, k).Corrected? ==> exists j :: k <= j < 16 && Distance(bits, G[j]) == 1 &&
                                                    Scan(bits, k).data == DataBits(G[j])
    decreases 16 - k
  {
    if k < 16 && Distance(bits, G[k]) > 2 {
      ScanCorrected(bits, k + 1);
    }
  }

  lemma {:induction false} ScanDoubleError(bits: string, k: nat)
    requires |bits| >= 8 && k <= 16
    ensures Scan(bits, k).DoubleError? ==> exists j :: k <= j < 16 && Distance(bits, G[j]) == 2
    decreases 16 - k
  {
    if k < 16 && Distance(bits, G[k]) > 2 {
      ScanDoubleError(bits, k + 1);
    }
  }

  /** One step of the scan. */
  lemma {:induction false} ScanStep(bits: string, k: nat)
    requires |bits| >= 8 && k < 16
    ensures var d := Distance(bits, G[k]);
            Scan(bits, k) == if d == 0 then Clean(DataBits(bits))
                             else if d == 1 then Corrected(DataBits(G[k]))
                             else if d == 2 then DoubleError
                             else Scan(bits, k + 1)
  {
  }

  /** fromHamming's classification of a received chunk. */
  function Classify(bits: string): Verdict
    requires |bits| >= 8
  {
    Scan(bits, 0)
  }

  /** `fromHamming`: for each table entry in order, collect the positions
      where it differs from `bits`, and stop at the first entry that differs
      in at most two. */
  method FromHamming(bits: string) returns (r: Option<string>)
    requires |bits| >= 8 && IsDigits(bits)
    ensures r == Classify(bits).Result()
  {
    var k := 0;
    while k < |G|
      invariant 0 <= k <= 16
      invariant Scan(bits, k) == Classify(bits)
    {
      var code := G[k];
      var hamm1 := seq(|bits|, j requires 0 <= j < |bits| => DigitValue(bits[j]));
      var hamm2 := seq(|code|, j requires 0 <= j < |code| => DigitValue(code[j]));
      var diff: seq<nat> := [];
      var i := 0;
      while i < 8
        invariant 0 <= i <= 8
        invariant diff == DiffPositions(bits, code, i)
      {
        if hamm1[i] != hamm2[i] {
          diff := diff + [i + 1];
        }
        i := i + 1;
      }
      assert |diff| == Distance(bits, G[k]);
      ScanStep(bits, k);
      if |diff| == 0 {
        return Some(DataBits(bits));
      }
      if |diff| == 1 {
        return Some(DataBits(code));
      }
      if |diff| == 2 {
        return None;
      }
      k := k + 1;
    }
    return None;
  }

  /** Every chunk of eight that decode hands to fromHamming is made of digit
      characters, which `int()` accepts; a trailing fragment is never read. */
  predicate ChunksAreDigits(s: string)
  {
    forall i :: 0 <= i < |s| / 8 * 8 ==> IsDigit(s[i])
  }

  /** `decode` as a function: the data bits of every chunk, or `None` as soon
      as one chunk cannot be decoded. */
  function Decoded(s: string): (r: Option<string>)
    ensures r.Some? ==> |r.value| == 4 * (|s| / 8)
    decreases |s|
  {
    if |s| < 8 then Some([])
    else
      assert |s[8..]| / 8 == |s| / 8 - 1;
      match Classify(s[..8]).Result()
      case None => None
      case Some(d) =>
        match Decoded(s[8..])
        case None => None
        case Some(t) => Some(d + t)
  }

  /** `done` put in front of a decoding result. */
  function Prepend(done: string, r: Option<string>): Option<string>
  {
    match r
    case None => None
    case Some(t) => Some(done + t)
  }

  lemma {:induction false} DecodeStep(done: string, s: string)
    requires |s| >= 8
    ensures Classify(s[..8]).Result().None? ==> Decoded(s).None?
    ensures Classify(s[..8]).Result().Some? ==>
              Prepend(done, Decoded(s)) ==
              Prepend(done + Classify(s[..8]).Result().value, Decoded(s[8..]))
  {
    match Classify(s[..8]).Result()
    case None =>
    case Some(d) =>
      match Decoded(s[8..])
      case None =>
      case Some(t) =>
        assert Decoded(s) == Some(d + t);
        assert done + (d + t) == (done + d) + t;
  }

  /** The chunk decode hands to fromHamming is bits, and so are the chunks
      after it. */
  lemma {:induction false} ChunksAreDigitsStep(s: string)
    requires ChunksAreDigits(s) && |s| >= 8
    ensures IsDigits(s[..8]) && ChunksAreDigits(s[8..])
  {
    DivStep(|s|, 8);
    assert forall i :: 0 <= i < 8 ==> s[..8][i] == s[i];
    assert forall i :: 0 <= i < |s[8..]| / 8 * 8 ==> s[8..][i] == s[i + 8];
  }

  lemma {:induction false} PrependEmpty(r: Option<string>)
    ensures Prepend("", r) == r
  {
    if r.Some? {
      assert "" + r.value == r.value;
    }
  }

  /** `decode`: the loop that consumes eight characters at a time and gives
      up at the first chunk fromHamming rejects. */
  method Decode(s: string) returns (r: Option<string>)
    requires ChunksAreDigits(s)
    ensures r == Decoded(s)
  {
    var decoded := "";
    var rest := s;
    PrependEmpty(Decoded(s));
    while |rest| >= 8
      invariant ChunksAreDigits(rest)
      invariant Decoded(s) == Prepend(decoded, Decoded(rest))
      decreases |rest|
    {
      DecodeStep(decoded, rest);
      ChunksAreDigitsStep(rest);
      var nibble := rest[..8];
      var n := FromHamming(nibble);
      if n.Some? {
        decoded := decoded + n.value;
      } else {
        return None;
      }
      rest := rest[8..];
    }
    assert decoded + [] == decoded;
    return Some(decoded);
  }

  /** Entries the scan passes over (distance three or more) do not change its
      outcome. */
  lemma {:induction false} ScanSkips(bits: string, k: nat, m: nat)
    requires |bits| >= 8 && k <= m <= 16
    requires forall j :: k <= j < m ==> Distance(bits, G[j]) >= 3
    ensures Scan(bits, k) == Scan(bits, m)
    decreases m - k
  {
    if k < m {
      ScanStep(bits, k);
      ScanSkips(bits, k + 1, m);
    }
  }

  /** A word within distance two of entry `v` is at distance at least
      `4 - d` from every other entry. */
  lemma {:induction false} FarFromOthers(bits: string, v: nat, j: nat)
    requires |bits| >= 8 && v < 16 && j < 16 && j != v
    ensures Distance(bits, G[j]) >= 4 - Distance(bits, G[v])
  {
    CodebookMinDistance(v, j);
    DistanceTriangle(G[v], bits, G[j]);
    DistanceSymmetric(bits, G[v]);
  }

  /** Single error correction: a word within distance one of entry `v` is
      decoded to the data bits of `v`, whatever its position in the table. */
  lemma {:induction false} ClassifyNear(bits: string, v: nat)
    requires |bits| >= 8 && v < 16 && Distance(bits, G[v]) <= 1
    ensures Classify(bits) == if Distance(bits, G[v]) == 0 then Clean(DataBits(G[v]))
                              else Corrected(DataBits(G[v]))
    ensures Classify(bits).Result() == Some(DataBits(G[v]))
  {
    forall j | 0 <= j < v
      ensures Distance(bits, G[j]) >= 3
    {
      FarFromOthers(bits, v, j);
    }
    ScanSkips(bits, 0, v);
    ScanStep(bits, v);
    if Distance(bits, G[v]) == 0 {
      SameData(bits, G[v]);
    }
  }

  /** Words at distance zero carry the same data bits. */
  lemma {:induction false} SameData(a: string, b: string)
    requires |a| >= 8 && |b| >= 8 && Distance(a, b) == 0
    ensures DataBits(a) == DataBits(b)
  {
    DiffEmpty(a, b, 8);
    assert a[..8][2] == b[..8][2];
    assert a[..8][4..7] == b[..8][4..7];
  }

  lemma {:induction false} ScanDouble(bits: string, k: nat, v: nat)
    requires |bits| >= 8 && k <= v < 16 && Distance(bits, G[v]) == 2
    requires forall j :: k <= j < 16 ==> Distance(bits, G[j]) >= 2
    ensures Scan(bits, k) == DoubleError
    decreases v - k
  {
    ScanStep(bits, k);
    if k < v && Distance(bits, G[k]) != 2 {
      ScanDouble(bits, k + 1, v);
    }
  }

  /** Double error detection: a word at distance two from an entry is
      rejected, never miscorrected. */
  lemma {:induction false} ClassifyDouble(bits: string, v: nat)
    requires |bits| >= 8 && v < 16 && Distance(bits, G[v]) == 2
    ensures Classify(bits) == DoubleError
    ensures Classify(bits).Result() == None
  {
    forall j | 0 <= j < 16
      ensures Distance(bits, G[j]) >= 2
    {
      if j != v {
        FarFromOthers(bits, v, j);
      }
    }
    ScanDouble(bits, 0, v);
  }

  /** fromHamming returns data exactly when some entry is within distance
      one of the received word. */
  lemma {:induction false} ClassifyDecodes(bits: string)
    requires |bits| >= 8
    ensures Classify(bits).Result().Some? <==> exists v :: 0 <= v < 16 && Distance(bits, G[v]) <= 1
  {
    ScanMeaning(bits, 0);
    if v :| 0 <= v < 16 && Distance(bits, G[v]) <= 1 {
      ClassifyNear(bits, v);
    }
  }

  /** What fromHamming returns for chunk `k` of the stream, the characters
      `8k` to `8k + 7`. */
  function ChunkResult(s: string, k: nat): (r: Option<string>)
    requires k < |s| / 8
    ensures r.Some? ==> |r.value| == 4
  {
    assert 8 * k + 8 <= |s| / 8 * 8;
    Classify(s[8 * k..8 * k + 8]).Result()
  }

  lemma {:induction false} ChunkResultHead(s: string)
    requires |s| >= 8
    ensures ChunkResult(s, 0) == Classify(s[..8]).Result()
  {
    assert s[0..8] == s[..8];
  }

  lemma {:induction false} ChunkResultTail(s: string, k: nat)
    requires 0 < k < |s| / 8
    ensures k - 1 < |s[8..]| / 8
    ensures ChunkResult(s, k) == ChunkResult(s[8..], k - 1)
  {
    DivStep(|s|, 8);
    assert 8 * k + 8 <= |s|;
    ChunkOfTail(s, 8, k);
    SameVerdict(s[8 * k..8 * k + 8], s[8..][8 * (k - 1)..8 * (k - 1) + 8]);
  }

  lemma {:induction false} SameVerdict(a: string, b: string)
    requires |a| >= 8 && a == b
    ensures Classify(a) == Classify(b)
  {
  }

  /** decode gives up exactly when one of the chunks cannot be decoded. */
  lemma {:induction false} DecodedNone(s: string)
    ensures Decoded(s).None? <==> exists k :: 0 <= k < |s| / 8 && ChunkResult(s, k).None?
    decreases |s|
  {
    if |s| >= 8 {
      DecodeStep("", s);
      ChunkResultHead(s);
      DecodedNone(s[8..]);
      assert |s[8..]| / 8 == |s| / 8 - 1;
      if ChunkResult(s, 0).Some? {
        if Decoded(s).None? {
          var k :| 0 <= k < |s[8..]| / 8 && ChunkResult(s[8..], k).None?;
          ChunkResultTail(s, k + 1);
        } else {
          forall k | 0 < k < |s| / 8
            ensures ChunkResult(s, k).Some?
          {
            ChunkResultTail(s, k);
          }
        }
      }
    }
  }

  /** A successful decoding is the data of the first chunk followed by the
      decoding of the rest. */
  lemma {:induction false} DecodedCons(s: string)
    requires |s| >= 8 && Decoded(s).Some?
    ensures ChunkResult(s, 0).Some? && Decoded(s[8..]).Some?
    ensures Decoded(s).value == ChunkResult(s, 0).value + Decoded(s[8..]).value
  {
    DecodeStep("", s);
    ChunkResultHead(s);
    PrependEmpty(Decoded(s));
  }

  /** Chunk `k` of a decoding `d + t` is chunk `k - 1` of the decoding `t`
      of the rest. */
  /** Characters `4k` to `4k + 3` of the decoding `v` are the data bits `c`
      of chunk `k`. */
  predicate NibbleAt(v: Option<string>, k: nat, c: Option<string>)
  {
    v.Some? && c.Some? && 4 * k + 4 <= |v.value| && v.value[4 * k..4 * k + 4] == c.value
  }

  lemma {:induction false} ChunkAfterHead(v: Option<string>, d: string, t: Option<string>,
                                          c: Option<string>, ct: Option<string>, k: nat)
    requires v.Some? && t.Some? && v.value == d + t.value && |d| == 4 && 0 < k
    requires c == ct && NibbleAt(t, k - 1, ct)
    ensures NibbleAt(v, k, c)
  {
    ChunkOfTail(v.value, 4, k);
    assert v.value[4..] == t.value;
  }

  /** Chunk `k` of a successful decoding holds the data bits of chunk `k`. */
  lemma {:induction false} DecodedChunk(s: string, k: nat)
    requires k < |s| / 8 && Decoded(s).Some?
    ensures NibbleAt(Decoded(s), k, ChunkResult(s, k))
    decreases k
  {
    DecodedCons(s);
    if k > 0 {
      ChunkResultTail(s, k);
      DecodedChunk(s[8..], k - 1);
      assert Decoded(s).Some? && Decoded(s[8..]).Some?;
      assert Decoded(s).value == ChunkResult(s, 0).value + Decoded(s[8..]).value;
      assert |ChunkResult(s, 0).value| == 4;
      assert ChunkResult(s, k) == ChunkResult(s[8..], k - 1);
      assert NibbleAt(Decoded(s[8..]), k - 1, ChunkResult(s[8..], k - 1));
      ChunkAfterHead(Decoded(s), ChunkResult(s, 0).value, Decoded(s[8..]),
                     ChunkResult(s, k), ChunkResult(s[8..], k - 1), k);
    } else {
      assert Decoded(s).value[0..4] == ChunkResult(s, 0).value;
    }
  }

  /** decode as a whole: it returns `r` exactly when every chunk is decoded
      and `r` is their data bits in order. */
  lemma {:induction false} DecodedMeaning(s: string, r: string)
    ensures Decoded(s) == Some(r) <==>
            |r| == 4 * (|s| / 8) &&
            forall k :: 0 <= k < |s| / 8 ==> ChunkResult(s, k) == Some(r[4 * k..4 * k + 4])
  {
    if Decoded(s) == Some(r) {
      forall k | 0 <= k < |s| / 8
        ensures ChunkResult(s, k) == Some(r[4 * k..4 * k + 4])
      {
        DecodedChunk(s, k);
      }
    }
    if |r| == 4 * (|s| / 8) && forall k :: 0 <= k < |s| / 8 ==> ChunkResult(s, k) == Some(r[4 * k..4 * k + 4]) {
      DecodedFromChunks(s, r);
    }
  }

  lemma {:induction false} DecodedFromChunks(s: string, r: string)
    requires |r| == 4 * (|s| / 8)
    requires forall k :: 0 <= k < |s| / 8 ==> ChunkResult(s, k) == Some(r[4 * k..4 * k + 4])
    ensures Decoded(s) == Some(r)
  {
    DecodedNone(s);
    var v := Decoded(s).value;
    forall k | 0 <= k < |s| / 8
      ensures v[4 * k..4 * k + 4] == r[4 * k..4 * k + 4]
    {
      DecodedChunk(s, k);
    }
    EqualByNibbles(v, r, |s| / 8);
  }
}
