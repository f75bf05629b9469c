/** Four intact frames after a damaged one do not always bring the two sides together: the spectrum
    of the fourth is still predicted from the memory of the damaged one. */
module FifthFrame {
  import opened BasicOp
  import opened Ld8a
  import opened Bits
  import opened LspPredictor
  import opened LspStability
  import opened LspQuant
  import opened LspRun
  import opened PulseCode
  import opened PitchLag
  import opened Gain
  import opened Codec

  // What an intact frame does to the spectra of both sides.
  lemma SpectrumOfFrame(t: Tables, e: CoderState, d: DecoderState, c: Choice, r1: Random, r2: Random)
    requires t.cb.Valid() && e.Valid() && d.Valid() && c.Valid()
    ensures var f, g := CodedFrame(t, e, c).0, DecodedWords(t, d, Sent(c), r1, r2).0;
      && f.prev == Pushed(Elementary(t.cb, c.code), e.prev)
      && g.lsp.prev == Pushed(Elementary(t.cb, c.code), d.lsp.prev)
      && f.lspOldQ == t.cosine(Quantised(t.cb, c.code, e.prev))
      && g.lspOld == t.cosine(Quantised(t.cb, c.code, d.lsp.prev))
  {
    hide Params, Sent, CodedSubframe, AfterSubframe, DecodedVoice, Quantised, Elementary, Pushed, FirstWord,
      SecondWord, ReceivedCode, FirstIndex, SecondIndex, Delivered, Parity, PositionIndex, SignIndex, Index;
    IntactFrame(c);
    LagIndices(c);
    CodeRoundTrip(c.code);
    SentWords(c);
  }

  // ----- Two memories that differ in their oldest vector

  // A codebook vector far enough apart to be left alone by the expansion.
  const LOW: Row := [0, 20, 40, 60, 80, 100, 120, 140, 160, 180]
  const HIGH: Row := [0, 20, 40, 60, 80, 100, 120, 140, 160, 32767]

  lemma {:induction false} Unexpanded(b: seq<Word16>, gap: Word16, hi: nat)
    requires 1 <= hi <= |b| && 0 <= gap <= 10 && b == LOW
    ensures Expanded(b, gap, 1, hi) == b
  {
    if hi > 1 {
      Unexpanded(b, gap, hi - 1);
      NothingLacks(b[hi - 2], b[hi - 1], gap);
    }
  }

  lemma NothingLacks(x: Word16, y: Word16, gap: Word16)
    requires y as int == x as int + 20 && 0 <= gap <= 10 && 0 <= x <= 1000
    ensures Lack(x, y, gap) <= 0
  {
    assert TwoTo(1) == 2;
    var t := Add(Sub(x, y), gap);
    assert t as int == gap as int - 20;
    assert FloorShift(t, 1) == t / 2;
  }

  lemma {:induction false} SpacedUpTo(b: seq<Word16>, c: int, j: nat)
    requires |b| == M && (forall k :: 0 <= k < M ==> b[k] <= c) && L_LIMIT <= c <= 1000 && j < M
    ensures Carry(b, j) <= c && Exchanged(b, j) <= c && Spaced(b, j) <= c + GAP3 * j
  {
    hide AtGap, Lifted;
    CarryUpTo(b, c, j);
    if j > 0 {
      SpacedUpTo(b, c, j - 1);
      GapUpTo(Spaced(b, j - 1), Exchanged(b, j), c + GAP3 * (j - 1));
    } else {
      FirstUpTo(b, c);
    }
  }

  lemma {:induction false} CarryUpTo(b: seq<Word16>, c: int, j: nat)
    requires |b| == M && (forall k :: 0 <= k < M ==> b[k] <= c) && j < M
    ensures Carry(b, j) <= c && Exchanged(b, j) <= c
  {
    if j > 0 { CarryUpTo(b, c, j - 1); }
  }

  lemma FirstUpTo(b: seq<Word16>, c: int)
    requires |b| == M && Exchanged(b, 0) <= c && L_LIMIT <= c
    ensures Lifted(b) <= c
  {
    hide Exchanged;
  }

  lemma GapUpTo(x: Word16, y: Word16, c: int)
    requires x <= c && y <= c + GAP3
    ensures AtGap(x, y) <= c + GAP3
  {}

  lemma GapKeeps(x: Word16, y: Word16)
    ensures AtGap(x, y) >= y
  {}

  // With this innovation the vector is composed of `LOW` and the memory.
  lemma QuantisedLow(cb: Codebooks, code: Code, prev: seq<Row>)
    requires cb.Valid() && code.Valid() && code.mode == 0 && Elementary(cb, code) == LOW && IsTable(prev, MA_NP)
    ensures IsTable(FG[0], MA_NP) && |FG_SUM[0]| == M
    ensures Quantised(cb, code, prev) == Stabilised(Composed(LOW, FG[0], prev, FG_SUM[0]))
  {
    hide LOW, FG, FG_SUM, Elementary, Composed, Stabilised;
    ModeTables(0);
  }

  // The same vector throughout stays low.
  lemma LowQuantised(cb: Codebooks, code: Code, prev: seq<Row>)
    requires cb.Valid() && code.Valid() && code.mode == 0 && Elementary(cb, code) == LOW
    requires prev == [LOW, LOW, LOW, LOW]
    ensures Quantised(cb, code, prev)[M - 1] <= 3069
  {
    hide LOW, FG, FG_SUM, Elementary, ComposeWord, Stabilised, Quantised;
    ModeTables(0);
    QuantisedLow(cb, code, prev);
    var b := Composed(LOW, FG[0], prev, FG_SUM[0]);
    forall j | 0 <= j < M ensures b[j] <= 180 {
      LowColumn(prev, j);
    }
    LastUpTo(b);
  }

  lemma LastUpTo(b: seq<Word16>)
    requires |b| == M && forall j :: 0 <= j < M ==> b[j] <= 180
    ensures Stabilised(b)[M - 1] <= 3069
  {
    hide Spaced;
    SpacedUpTo(b, 180, M - 1);
  }

  lemma LowColumn(prev: seq<Row>, j: nat)
    requires prev == [LOW, LOW, LOW, LOW] && j < M
    ensures IsTable(prev, MA_NP) && IsTable(FG[0], MA_NP) && |FG_SUM[0]| == M
    ensures ComposeWord(LOW[j], FG_SUM[0][j], prev, FG[0], j) <= 180
  {
    hide FG, FG_SUM, MacColumn, Weight, LMult, ExtractH;
    ModeTables(0);
    LowWord(j);
    WeightsBelowOne(0, j);
    WeightGrows(FG_SUM[0][j], FG[0], j, MA_NP);
    hide LOW;
    ColumnBelow(LOW[j], FG_SUM[0][j], prev, FG[0], j, MA_NP, 180);
    LspRun.HighHalf(MacColumn(LMult(LOW[j], FG_SUM[0][j]), prev, FG[0], j, MA_NP), 180,
                    Weight(FG_SUM[0][j], FG[0], j, MA_NP));
  }

  lemma LowWord(j: nat)
    requires j < M
    ensures 0 <= LOW[j] <= 180
  {}

  lemma MacRises(acc: Word32, x: Word16, y: Word16)
    requires acc >= 0 && x >= 0 && y >= 0
    ensures LMac(acc, x, y) >= LMult(x, y) >= 0
  {
    MulMono(0, x, y);
  }

  // A large last word in the oldest vector is still heard.
  lemma HighQuantised(cb: Codebooks, code: Code, prev: seq<Row>)
    requires cb.Valid() && code.Valid() && code.mode == 0 && Elementary(cb, code) == LOW
    requires prev == [LOW, LOW, LOW, HIGH]
    ensures Quantised(cb, code, prev)[M - 1] >= 3472
  {
    hide LOW, FG, FG_SUM, Elementary, ComposeWord, Stabilised, Quantised;
    ModeTables(0);
    QuantisedLow(cb, code, prev);
    HighColumn(prev);
    LastIsLargest(Composed(LOW, FG[0], prev, FG_SUM[0]));
  }

  lemma LastIsLargest(b: seq<Word16>)
    requires |b| == M
    ensures Stabilised(b)[M - 1] >= if b[M - 1] > M_LIMIT then M_LIMIT else b[M - 1]
  {
    hide AtGap, Carry;
    CarryLast(b);
    GapKeeps(Spaced(b, M - 2), Exchanged(b, M - 1));
  }

  lemma CarryLast(b: seq<Word16>)
    requires |b| == M
    ensures Exchanged(b, M - 1) >= b[M - 1]
  {}

  lemma HighColumn(prev: seq<Row>)
    requires prev == [LOW, LOW, LOW, HIGH]
    ensures IsTable(prev, MA_NP) && IsTable(FG[0], MA_NP) && |FG_SUM[0]| == M
    ensures ComposeWord(LOW[M - 1], FG_SUM[0][M - 1], prev, FG[0], M - 1) >= 3472
  {
    hide LMac;
    ModeTables(0);
    var m := LMult(180, 8604);
    MacRises(0, 180, 8604);
    MacRises(m, 180, 8673);
    var m1 := LMac(m, 180, 8673);
    MacRises(m1, 180, 6868);
    var m2 := LMac(m1, 180, 6868);
    MacRises(m2, 180, 5147);
    var m3 := LMac(m2, 180, 5147);
    MacRises(m3, 32767, 3473);
    assert MacColumn(m, prev, FG[0], M - 1, 1) == m1;
    assert MacColumn(m, prev, FG[0], M - 1, 2) == m2;
    assert MacColumn(m, prev, FG[0], M - 1, 3) == m3;
    assert MacColumn(m, prev, FG[0], M - 1, 4) == LMac(m3, 32767, 3473);
  }

  /** A codebook whose first rows are LOW and whose second rows are zero has LOW for every code. */
  lemma LowCodebook(cb: Codebooks, code: Code)
    requires cb.Valid() && code.Valid() && cb.first[code.c0] == LOW
    requires forall i, j :: 0 <= i < NC1 && 0 <= j < M ==> cb.second[i][j] == 0
    ensures Elementary(cb, code) == LOW
  {
    hide Expanded;
    assert Vector(cb, code) == LOW;
    Unexpanded(LOW, GAP1, M);
    Unexpanded(LOW, GAP2, M);
  }

  // ----- Four intact frames

  // The memory of a side after n frames with the same elementary vector.
  lemma {:induction false} Memories(t: Tables, e: CoderState, d: DecoderState, fs: seq<Frame>, n: nat)
    requires Session(t, fs) && e.Valid() && d.Valid() && n <= |fs| && n <= 4
    requires forall i :: 0 <= i < n ==> fs[i].Intact() && Elementary(t.cb, fs[i].choice.code) == LOW
    ensures CoderRun(t, e, fs, n).prev == [LOW, LOW, LOW, LOW][..n] + e.prev[..4 - n]
    ensures DecoderRun(t, d, fs, n).lsp.prev == [LOW, LOW, LOW, LOW][..n] + d.lsp.prev[..4 - n]
  {
    hide CodedFrame, DecodedWords, Elementary, Sent, Quantised, Pushed, LOW;
    if n > 0 {
      Memories(t, e, d, fs, n - 1);
      var f := fs[n - 1];
      assert f.Intact();
      SpectrumOfFrame(t, CoderRun(t, e, fs, n - 1), DecoderRun(t, d, fs, n - 1), f.choice, f.r1, f.r2);
      OneMore(e.prev, n);
      OneMore(d.lsp.prev, n);
    }
  }

  lemma OneMore(prev: seq<Row>, n: nat)
    requires |prev| == 4 && 1 <= n <= 4
    ensures Pushed(LOW, [LOW, LOW, LOW, LOW][..n - 1] + prev[..5 - n]) == [LOW, LOW, LOW, LOW][..n] + prev[..4 - n]
  {
    hide LOW;
  }

  /** Five is exact: two sides whose memories differ only in the last word of the newest vector have
      equal memories after four intact frames, but still not the same last spectrum. */
  lemma FourAreNotEnough(t: Tables, e: CoderState, d: DecoderState, fs: seq<Frame>)
    requires Session(t, fs) && e.Valid() && d.Valid() && |fs| == 4
    requires forall i :: 0 <= i < 4 ==> fs[i].Intact() && Elementary(t.cb, fs[i].choice.code) == LOW
    requires fs[3].choice.code.mode == 0
    requires e.prev == [LOW, LOW, LOW, LOW] && d.lsp.prev == [HIGH, LOW, LOW, LOW]
    requires forall p, q :: t.cosine(p) == t.cosine(q) ==> p == q
    ensures CoderRun(t, e, fs, 4).prev == DecoderRun(t, d, fs, 4).lsp.prev
    ensures CoderRun(t, e, fs, 4).lspOldQ != DecoderRun(t, d, fs, 4).lspOld
  {
    hide CodedFrame, DecodedWords, Elementary, Sent, Quantised;
    Memories(t, e, d, fs, 4);
    Memories(t, e, d, fs, 3);
    var f := fs[3];
    assert f.Intact();
    var e3, d3 := CoderRun(t, e, fs, 3), DecoderRun(t, d, fs, 3);
    SpectrumOfFrame(t, e3, d3, f.choice, f.r1, f.r2);
    assert e3.prev == [LOW, LOW, LOW, LOW] && d3.lsp.prev == [LOW, LOW, LOW, HIGH];
    LowQuantised(t.cb, f.choice.code, e3.prev);
    HighQuantised(t.cb, f.choice.code, d3.lsp.prev);
  }
}
