/** The line spectral frequency quantiser: reconstruction from indices (LSPGETQ.C), the encoder's
    search (QUA_LSP.C) and the decoder with its concealment of erased frames (LSPDEC.C).
    The two codebooks are arbitrary tables of the right shape. */
module LspQuant {
  import opened BasicOp
  import opened Ld8a
  import opened LspPredictor
  import opened LspStability

  const NC := 5
  const NC0 := 128
  const NC1 := 32
  const GAP1: Word16 := 10
  const GAP2: Word16 := 5

  const FREQ_PREV_RESET: Row := [2339, 4679, 7018, 9358, 11698, 14037, 16377, 18717, 21056, 23396]

  datatype Codebooks = Codebooks(first: seq<Row>, second: seq<Row>) {
    predicate Valid() { IsTable(first, NC0) && IsTable(second, NC1) }
  }

  datatype Code = Code(mode: int, c0: int, c1: int, c2: int) {
    predicate Valid() { 0 <= mode < 2 && 0 <= c0 < NC0 && 0 <= c1 < NC1 && 0 <= c2 < NC1 }
  }

  // ----- Reconstruction

  function VectorWord(cb: Codebooks, code: Code, j: nat): Word16
    requires cb.Valid() && code.Valid() && j < M
  {
    Add(cb.first[code.c0][j], cb.second[if j < NC then code.c1 else code.c2][j])
  }

  function Vector(cb: Codebooks, code: Code): (v: Row)
    requires cb.Valid() && code.Valid()
    ensures |v| == M
  {
    seq(M, j requires 0 <= j < M => VectorWord(cb, code, j))
  }

  // The codebook vector after both expansions.
  function Elementary(cb: Codebooks, code: Code): (e: Row)
    requires cb.Valid() && code.Valid()
    ensures |e| == M
  {
    Expanded(Expanded(Vector(cb, code), GAP1, 1, M), GAP2, 1, M)
  }

  /** Every pair of the elementary vector has been moved to GAP1 - 1 apart at least when the first
      pass leaves it and to GAP2 - 1 when the second does, and its last pair stays so. */
  lemma ElementaryApart(cb: Codebooks, code: Code, j: nat)
    requires cb.Valid() && code.Valid() && 0 < j < M
    requires forall i :: 0 <= i < M ==> 0 <= Vector(cb, code)[i] <= 32000
    ensures var v := Vector(cb, code);
      var first := Expanded(v, GAP1, 1, M);
      && Expanded(v, GAP1, 1, j + 1)[j] - Expanded(v, GAP1, 1, j + 1)[j - 1] >= GAP1 - 1
      && Expanded(first, GAP2, 1, j + 1)[j] - Expanded(first, GAP2, 1, j + 1)[j - 1] >= GAP2 - 1
    ensures Elementary(cb, code)[M - 1] - Elementary(cb, code)[M - 2] >= GAP2 - 1
  {
    hide Expanded, Vector;
    var v := Vector(cb, code);
    BothPasses(v, j);
    BothPasses(v, M - 1);
  }

  lemma BothPasses(v: Row, j: nat)
    requires |v| == M && 0 < j < M && forall i :: 0 <= i < M ==> 0 <= v[i] <= 32000
    ensures var first := Expanded(v, GAP1, 1, M);
      && Expanded(v, GAP1, 1, j + 1)[j] - Expanded(v, GAP1, 1, j + 1)[j - 1] >= GAP1 - 1
      && Expanded(first, GAP2, 1, j + 1)[j] - Expanded(first, GAP2, 1, j + 1)[j - 1] >= GAP2 - 1
  {
    hide Expanded, ExpandFits, Uncrossed;
    RangeExpands(v, GAP1, 0, 32000, M);
    RangeExpands(v, GAP1, 0, 32000, j + 1);
    LeftApart(v, GAP1, 1, j + 1);
    var first := Expanded(v, GAP1, 1, M);
    RangeExpands(first, GAP2, -10, 32090, j + 1);
    LeftApart(first, GAP2, 1, j + 1);
  }

  lemma ModeTables(mode: int)
    requires 0 <= mode < 2
    ensures |FG| == 2 && IsTable(FG[mode], MA_NP) && IsTable(FG_SUM, 2) && IsTable(FG_SUM_INV, 2)
  {}

  function Quantised(cb: Codebooks, code: Code, prev: seq<Row>): (q: Row)
    requires cb.Valid() && code.Valid() && IsTable(prev, MA_NP)
    ensures |q| == M
  {
    ModeTables(code.mode);
    Stabilised(Composed(Elementary(cb, code), FG[code.mode], prev, FG_SUM[code.mode]))
  }

  method GetQuant(cb: Codebooks, code: Code, prev: array<Row>) returns (lspq: array<Word16>)
    requires cb.Valid() && code.Valid() && prev.Length == MA_NP && IsTable(prev[..], MA_NP)
    modifies prev
    ensures fresh(lspq) && lspq[..] == Quantised(cb, code, old(prev[..]))
    ensures prev[..] == Pushed(Elementary(cb, code), old(prev[..])) && IsTable(prev[..], MA_NP)
  {
    hide Expanded, ComposeWord, Stabilised, VectorWord, Add;
    var buf := new Word16[M];
    FillVector(cb, code, buf, 0, M);
    assert buf[..] == Vector(cb, code);
    Expand(buf, GAP1, 1, M);
    Expand(buf, GAP2, 1, M);
    lspq := new Word16[M];
    ModeTables(code.mode);
    PrevCompose(buf, lspq, FG[code.mode], prev, FG_SUM[code.mode]);
    PrevUpdate(buf[..], prev);
    Stability(lspq);
  }

  // Words lo .. hi - 1 of the sum of the selected rows.
  method FillVector(cb: Codebooks, code: Code, buf: array<Word16>, lo: nat, hi: nat)
    requires cb.Valid() && code.Valid() && buf.Length == M && lo <= hi <= M
    modifies buf
    ensures forall j :: lo <= j < hi ==> buf[j] == VectorWord(cb, code, j)
    ensures forall j :: 0 <= j < lo || hi <= j < M ==> buf[j] == old(buf[j])
  {
    hide Add;
    for j := lo to hi
      invariant forall i :: lo <= i < j ==> buf[i] == VectorWord(cb, code, i)
      invariant forall i :: 0 <= i < lo || j <= i < M ==> buf[i] == old(buf[i])
    {
      buf[j] := Add(cb.first[code.c0][j], cb.second[if j < NC then code.c1 else code.c2][j]);
    }
  }

  // ----- The index words

  function FirstWord(code: Code): Word16
    requires code.Valid()
  {
    Shl(code.mode, 7) + code.c0
  }

  function SecondWord(code: Code): Word16
    requires code.Valid()
  {
    Shl(code.c1, 5) + code.c2
  }

  function ReceivedCode(w0: Word16, w1: Word16): (code: Code)
    ensures code.Valid()
  {
    Code(Shr(w0, 7) % 2, w0 % NC0, Shr(w1, 5) % NC1, w1 % NC1)
  }

  lemma ShiftWords(x: int)
    requires 0 <= x < 32
    ensures Shl(x, 5) == 32 * x && (x < 2 ==> Shl(x, 7) == 128 * x)
  {
    assert TwoTo(5) == 32;
    assert TwoTo(7) == 4 * TwoTo(5);
  }

  /** The decoder reads back the encoder's code, which fits the 8 and 10 bits sent. */
  lemma CodeRoundTrip(code: Code)
    requires code.Valid()
    ensures ReceivedCode(FirstWord(code), SecondWord(code)) == code
    ensures 0 <= FirstWord(code) < 256 && 0 <= SecondWord(code) < 1024
  {
    ShiftWords(code.mode);
    ShiftWords(code.c1);
    assert TwoTo(5) == 32;
    assert TwoTo(7) == 4 * TwoTo(5);
    var w0, w1 := FirstWord(code), SecondWord(code);
    assert FloorShift(w0, 7) == w0 / 128 && FloorShift(w1, 5) == w1 / 32;
  }

  /** The two words sent, written out. */
  lemma WordsWrittenOut(code: Code)
    requires code.Valid()
    ensures FirstWord(code) as int == 128 * code.mode + code.c0
    ensures SecondWord(code) as int == 32 * code.c1 + code.c2
  {
    ShiftWords(code.mode);
    ShiftWords(code.c1);
  }

  // ----- The encoder

  // The first index of a smallest element.
  predicate FirstMin(d: seq<Word32>, k: int) {
    && 0 <= k < |d|
    && (forall i :: 0 <= i < k ==> d[i] > d[k])
    && (forall i :: k <= i < |d| ==> d[i] >= d[k])
  }

  function PreDistance(target: Row, row: Row, n: nat): Word32
    requires n <= M == |target| == |row|
  {
    if n == 0 then 0
    else var t := Sub(target[n - 1], row[n - 1]); LMac(PreDistance(target, row, n - 1), t, t)
  }

  // Weighted distance of the second stage over words lo .. n - 1.
  function Distance(target: Row, base: Row, wegt: Row, row: Row, lo: nat, n: nat): Word32
    requires lo <= n <= M == |target| == |base| == |wegt| == |row|
  {
    if n == lo then 0
    else
      var t := Sub(Sub(target[n - 1], base[n - 1]), row[n - 1]);
      LMac(Distance(target, base, wegt, row, lo, n - 1), Mult(wegt[n - 1], t), t)
  }

  function TotalDistortion(wegt: Row, buf: Row, target: Row, sum: Row, n: nat): Word32
    requires n <= M == |wegt| == |buf| == |target| == |sum|
  {
    if n == 0 then 0
    else
      var t := Mult(Sub(buf[n - 1], target[n - 1]), sum[n - 1]);
      LMac(TotalDistortion(wegt, buf, target, sum, n - 1), ExtractH(LShl(LMult(wegt[n - 1], t), 4)), t)
  }

  function PreDistances(target: Row, table: seq<Row>): seq<Word32>
    requires |target| == M && IsTable(table, |table|)
  {
    seq(|table|, i requires 0 <= i < |table| => PreDistance(target, table[i], M))
  }

  function Distances(target: Row, base: Row, wegt: Row, table: seq<Row>, lo: nat, hi: nat): seq<Word32>
    requires lo <= hi <= M == |target| == |base| == |wegt| && IsTable(table, |table|)
  {
    seq(|table|, i requires 0 <= i < |table| => Distance(target, base, wegt, table[i], lo, hi))
  }

  // The indices the search of one mode settles on.
  predicate Searched(cb: Codebooks, wegt: Row, target: Row, code: Code)
    requires cb.Valid() && |wegt| == |target| == M && code.Valid()
  {
    var base := cb.first[code.c0];
    && FirstMin(PreDistances(target, cb.first), code.c0)
    && FirstMin(Distances(target, base, wegt, cb.second, 0, NC), code.c1)
    && FirstMin(Distances(target, base, wegt, cb.second, NC, M), code.c2)
  }

  method PreSelect(target: Row, table: seq<Row>) returns (cand: nat)
    requires |target| == M && |table| > 0 && IsTable(table, |table|)
    ensures FirstMin(PreDistances(target, table), cand)
  {
    hide LMac, Sub, LSub, PreDistance;
    ghost var ds := PreDistances(target, table);
    cand := 0;
    var dmin: Word32 := MAX_32;
    for i := 0 to |table|
      invariant i == 0 ==> cand == 0 && dmin == MAX_32
      invariant i > 0 ==> 0 <= cand < i && dmin == ds[cand]
      invariant forall k :: 0 <= k < cand ==> ds[k] > dmin
      invariant forall k :: cand <= k < i ==> ds[k] >= dmin
    {
      var d := MeasurePre(target, table[i]);
      assert d == ds[i];
      CompareBySub(d, dmin);
      if LSub(d, dmin) < 0 {
        dmin := d;
        cand := i;
      }
    }
  }

  method MeasurePre(target: Row, row: Row) returns (d: Word32)
    requires |target| == |row| == M
    ensures d == PreDistance(target, row, M)
  {
    hide LMac, Sub;
    d := 0;
    for j := 0 to M
      invariant d == PreDistance(target, row, j)
    {
      var tmp := Sub(target[j], row[j]);
      d := LMac(d, tmp, tmp);
    }
  }

  // Lsp_select_1 over the first five words, Lsp_select_2 over the last five.
  method Select(target: Row, base: Row, wegt: Row, table: seq<Row>, lo: nat, hi: nat) returns (index: nat)
    requires lo <= hi <= M == |target| == |base| == |wegt| && |table| > 0 && IsTable(table, |table|)
    ensures FirstMin(Distances(target, base, wegt, table, lo, hi), index)
  {
    hide LMac, Sub, LSub, Distance;
    ghost var ds := Distances(target, base, wegt, table, lo, hi);
    index := 0;
    var dmin: Word32 := MAX_32;
    for i := 0 to |table|
      invariant i == 0 ==> index == 0 && dmin == MAX_32
      invariant i > 0 ==> 0 <= index < i && dmin == ds[index]
      invariant forall k :: 0 <= k < index ==> ds[k] > dmin
      invariant forall k :: index <= k < i ==> ds[k] >= dmin
    {
      var d := Measure(target, base, wegt, table[i], lo, hi);
      assert d == ds[i];
      CompareBySub(d, dmin);
      if LSub(d, dmin) < 0 {
        dmin := d;
        index := i;
      }
    }
  }

  method Measure(target: Row, base: Row, wegt: Row, row: Row, lo: nat, hi: nat) returns (d: Word32)
    requires lo <= hi <= M == |target| == |base| == |wegt| == |row|
    ensures d == Distance(target, base, wegt, row, lo, hi)
  {
    hide LMac, Sub, Mult;
    d := 0;
    for j := lo to hi
      invariant d == Distance(target, base, wegt, row, lo, j)
    {
      var tmp := Sub(Sub(target[j], base[j]), row[j]);
      d := LMac(d, Mult(wegt[j], tmp), tmp);
    }
  }

  method GetTdist(wegt: Row, buf: array<Word16>, target: Row, sum: Row) returns (d: Word32)
    requires buf.Length == M == |wegt| == |target| == |sum|
    ensures d == TotalDistortion(wegt, buf[..], target, sum, M)
  {
    hide LMac, Sub, Mult, LMult, LShr, ExtractH;
    d := 0;
    for j := 0 to M
      invariant d == TotalDistortion(wegt, buf[..], target, sum, j)
    {
      var tmp := Mult(Sub(buf[j], target[j]), sum[j]);
      var tmp2 := ExtractH(LShl(LMult(wegt[j], tmp), 4));
      d := LMac(d, tmp2, tmp);
    }
  }

  // The distortion of a code: that of the very vector the decoder will rebuild from it.
  function CodeDistortion(cb: Codebooks, wegt: Row, target: Row, code: Code): Word32
    requires cb.Valid() && |wegt| == |target| == M && code.Valid()
  {
    ModeTables(code.mode);
    TotalDistortion(wegt, Elementary(cb, code), target, FG_SUM[code.mode], M)
  }

  method SearchMode(cb: Codebooks, wegt: Row, target: Row, mode: nat) returns (code: Code, tdist: Word32)
    requires cb.Valid() && |wegt| == |target| == M && mode < 2
    ensures code.Valid() && code.mode == mode && Searched(cb, wegt, target, code)
    ensures tdist == CodeDistortion(cb, wegt, target, code)
  {
    hide FirstMin, PreDistances, Distances, TotalDistortion, Elementary, Expanded, VectorWord;
    var cand := PreSelect(target, cb.first);
    InRange(PreDistances(target, cb.first), cand);
    PreCount(target, cb.first);
    var t1 := Select(target, cb.first[cand], wegt, cb.second, 0, NC);
    InRange(Distances(target, cb.first[cand], wegt, cb.second, 0, NC), t1);
    Count(target, cb.first[cand], wegt, cb.second, 0, NC);
    code := Code(mode, cand, t1, 0);
    var buf := new Word16[M];
    FillVector(cb, code, buf, 0, NC);
    ghost var half := buf[..];
    Expand(buf, GAP1, 1, NC);
    var t2 := Select(target, cb.first[cand], wegt, cb.second, NC, M);
    InRange(Distances(target, cb.first[cand], wegt, cb.second, NC, M), t2);
    Count(target, cb.first[cand], wegt, cb.second, NC, M);
    code := Code(mode, cand, t1, t2);
    ghost var pushed := buf[..];
    FillVector(cb, code, buf, NC, M);
    ghost var full := buf[..];
    assert full[..NC] == pushed[..NC];
    assert forall j :: 0 <= j < NC ==> half[j] == VectorWord(cb, Code(mode, cand, t1, 0), j);
    SameFirstHalf(cb, Code(mode, cand, t1, 0), code);
    Expand(buf, GAP1, NC, M);
    Expand(buf, GAP2, 1, M);
    MeasuredIsRebuilt(cb, code, half, full);
    ModeTables(mode);
    tdist := GetTdist(wegt, buf, target, FG_SUM[mode]);
  }

  lemma InRange(d: seq<Word32>, k: int)
    requires FirstMin(d, k)
    ensures 0 <= k < |d|
  {}

  lemma PreCount(target: Row, table: seq<Row>)
    requires |target| == M && IsTable(table, |table|)
    ensures |PreDistances(target, table)| == |table|
  {}

  lemma Count(target: Row, base: Row, wegt: Row, table: seq<Row>, lo: nat, hi: nat)
    requires lo <= hi <= M == |target| == |base| == |wegt| && IsTable(table, |table|)
    ensures |Distances(target, base, wegt, table, lo, hi)| == |table|
  {}

  lemma SameFirstHalf(cb: Codebooks, a: Code, b: Code)
    requires cb.Valid() && a.Valid() && b.Valid() && a.c0 == b.c0 && a.c1 == b.c1
    ensures forall j :: 0 <= j < NC ==> VectorWord(cb, a, j) == VectorWord(cb, b, j)
  {}

  // Expanding the first half before the second is chosen changes nothing.
  lemma MeasuredIsRebuilt(cb: Codebooks, code: Code, half: Row, full: Row)
    requires cb.Valid() && code.Valid() && |half| == |full| == M
    requires forall j :: 0 <= j < NC ==> half[j] == VectorWord(cb, code, j)
    requires full[..NC] == Expanded(half, GAP1, 1, NC)[..NC]
    requires forall j :: NC <= j < M ==> full[j] == VectorWord(cb, code, j)
    ensures Expanded(Expanded(full, GAP1, NC, M), GAP2, 1, M) == Elementary(cb, code)
  {
    hide Expanded, VectorWord;
    var v := Vector(cb, code);
    assert half[..NC] == v[..NC];
    ExpandIsLocal(half, v, GAP1, 1, NC);
    var e := Expanded(v, GAP1, 1, NC);
    assert full == full[..NC] + full[NC..] && e == e[..NC] + e[NC..];
    assert full[NC..] == e[NC..];
    ExpandInHalves(v, GAP1, 1, NC, M);
  }

  class LspEncoder {
    const freqPrev: array<Row>

    ghost predicate Valid()
      reads this, freqPrev
    {
      freqPrev.Length == MA_NP && IsTable(freqPrev[..], MA_NP)
    }

    // Lsp_encw_reset
    constructor ()
      ensures Valid() && fresh(freqPrev)
      ensures freqPrev[..] == InitialMemory()
    {
      freqPrev := new Row[MA_NP](i => FREQ_PREV_RESET);
    }

    /** Relspwed: both modes are searched, the better one (mode 0 on ties) is sent, and the
        memory moves as the decoder's will. */
    method Relspwed(cb: Codebooks, wegt: Row, lsp: array<Word16>)
      returns (lspq: array<Word16>, w0: Word16, w1: Word16, ghost code: Code, ghost other: Code)
      requires Valid() && cb.Valid() && |wegt| == M && lsp.Length == M
      modifies freqPrev
      ensures Valid() && code.Valid() && other.Valid() && other.mode == 1 - code.mode
      ensures Searched(cb, wegt, TargetFor(lsp[..], old(freqPrev[..]), code.mode), code)
      ensures Searched(cb, wegt, TargetFor(lsp[..], old(freqPrev[..]), other.mode), other)
      ensures var d := CodeDistortion(cb, wegt, TargetFor(lsp[..], old(freqPrev[..]), code.mode), code);
        var e := CodeDistortion(cb, wegt, TargetFor(lsp[..], old(freqPrev[..]), other.mode), other);
        if code.mode == 0 then d <= e else d < e
      ensures w0 == FirstWord(code) && w1 == SecondWord(code)
      ensures lspq[..] == Quantised(cb, code, old(freqPrev[..]))
      ensures freqPrev[..] == Pushed(Elementary(cb, code), old(freqPrev[..]))
    {
      hide Searched, CodeDistortion, ExtractWord, Quantised, Elementary, Shl, LSub;
      var rbuf := new Word16[M];
      ModeTables(0);
      PrevExtract(lsp, rbuf, FG[0], freqPrev, FG_SUM_INV[0]);
      var code0, d0 := SearchMode(cb, wegt, rbuf[..], 0);
      ModeTables(1);
      PrevExtract(lsp, rbuf, FG[1], freqPrev, FG_SUM_INV[1]);
      var code1, d1 := SearchMode(cb, wegt, rbuf[..], 1);
      var best := code0;
      code, other := code0, code1;
      CompareBySub(d1, d0);
      if LSub(d1, d0) < 0 {
        best := code1;
        code, other := code1, code0;
      }
      w0, w1 := FirstWord(best), SecondWord(best);
      lspq := GetQuant(cb, best, freqPrev);
    }
  }

  function TargetFor(lsp: Row, prev: seq<Row>, mode: int): (t: Row)
    requires 0 <= mode < 2 && |lsp| == M && IsTable(prev, MA_NP)
    ensures |t| == M
  {
    ModeTables(mode);
    Extracted(lsp, FG[mode], prev, FG_SUM_INV[mode])
  }

  function InitialMemory(): (p: seq<Row>)
    ensures IsTable(p, MA_NP)
  {
    [FREQ_PREV_RESET, FREQ_PREV_RESET, FREQ_PREV_RESET, FREQ_PREV_RESET]
  }

  // ----- The decoder

  datatype LspState = LspState(prev: seq<Row>, ma: int, lsp: Row) {
    predicate Valid() { IsTable(prev, MA_NP) && 0 <= ma < 2 && |lsp| == M }
  }

  function InitialState(): (s: LspState)
    ensures s.Valid()
  {
    LspState(InitialMemory(), 0, FREQ_PREV_RESET)
  }

  // After a received code.
  function Received(cb: Codebooks, s: LspState, code: Code): (t: LspState)
    requires cb.Valid() && code.Valid() && s.Valid()
    ensures t.Valid()
  {
    hide Elementary, Quantised, Pushed;
    PushedIsTable(Elementary(cb, code), s.prev);
    LspState(Pushed(Elementary(cb, code), s.prev), code.mode, Quantised(cb, code, s.prev))
  }

  // After an erased frame: the last spectrum is repeated and its elementary vector inferred.
  function Erased(s: LspState): (t: LspState)
    requires s.Valid()
    ensures t.Valid()
  {
    ModeTables(s.ma);
    LspState(Pushed(Extracted(s.lsp, FG[s.ma], s.prev, FG_SUM_INV[s.ma]), s.prev), s.ma, s.lsp)
  }

  class LspDecoder {
    const freqPrev: array<Row>
    var prevMa: int
    const prevLsp: array<Word16>

    ghost predicate Valid()
      reads this, freqPrev, prevLsp
    {
      && freqPrev.Length == MA_NP && IsTable(freqPrev[..], MA_NP)
      && 0 <= prevMa < 2 && prevLsp.Length == M
    }

    ghost function State(): (s: LspState)
      requires Valid()
      reads this, freqPrev, prevLsp
      ensures s.Valid()
    {
      LspState(freqPrev[..], prevMa, prevLsp[..])
    }

    // Lsp_decw_reset
    constructor ()
      ensures Valid() && fresh(freqPrev) && fresh(prevLsp)
      ensures State() == InitialState()
    {
      freqPrev := new Row[MA_NP](i => FREQ_PREV_RESET);
      prevMa := 0;
      prevLsp := new Word16[M](i requires 0 <= i < M => FREQ_PREV_RESET[i]);
      new;
      assert prevLsp[..] == FREQ_PREV_RESET;
    }

    /** Lsp_iqua_cs */
    method IquaCs(cb: Codebooks, w0: Word16, w1: Word16, erase: bool) returns (lspq: array<Word16>)
      requires Valid() && cb.Valid()
      modifies this, freqPrev, prevLsp
      ensures Valid() && fresh(lspq)
      ensures State() == if erase then Erased(old(State())) else Received(cb, old(State()), ReceivedCode(w0, w1))
      ensures lspq[..] == State().lsp
    {
      hide Quantised, Elementary, ExtractWord, Pushed, ReceivedCode;
      if !erase {
        var code := ReceivedCode(w0, w1);
        lspq := GetQuant(cb, code, freqPrev);
        CopyRow(lspq, prevLsp);
        prevMa := code.mode;
      } else {
        lspq := new Word16[M];
        CopyRow(prevLsp, lspq);
        var buf := new Word16[M];
        ModeTables(prevMa);
        PrevExtract(prevLsp, buf, FG[prevMa], freqPrev, FG_SUM_INV[prevMa]);
        PrevUpdate(buf[..], freqPrev);
        PushedIsTable(buf[..], old(freqPrev[..]));
      }
    }
  }

  lemma PushedIsTable(ele: Row, prev: seq<Row>)
    requires |ele| == M && IsTable(prev, MA_NP)
    ensures IsTable(Pushed(ele, prev), MA_NP)
  {}

  method CopyRow(src: array<Word16>, dst: array<Word16>)
    requires src.Length == dst.Length && src != dst
    modifies dst
    ensures dst[..] == src[..]
  {
    for i := 0 to src.Length
      invariant dst[..i] == src[..i]
    {
      dst[i] := src[i];
    }
  }
}
