/** Error-free runs of the spectral quantiser: with codebooks whose columns have the maxima of the
    tables in TAB_LD8A.C, Lsp_stability never has to give up a gap. */
module LspRun {
  import opened BasicOp
  import opened Ld8a
  import opened LspPredictor
  import opened LspStability
  import opened LspQuant

  // Largest entries of the ten columns of the two codebooks.
  const FIRST_MAX: seq<int> := [4499, 6604, 9596, 11742, 14413, 16080, 18330, 19856, 21830, 23533]
  const SECOND_MAX: seq<int> := [2197, 2337, 1568, 1660, 1733, 1549, 1341, 1640, 1517, 2223]

  ghost predicate WithinMaxima(cb: Codebooks) {
    && cb.Valid()
    && (forall i, j :: 0 <= i < NC0 && 0 <= j < M ==> cb.first[i][j] <= FIRST_MAX[j])
    && (forall i, j :: 0 <= i < NC1 && 0 <= j < M ==> cb.second[i][j] <= SECOND_MAX[j])
  }

  // What leaves room below the upper limit for the gaps after word j.
  function Ceiling(j: int): int { M_LIMIT - GAP3 - GAP3 * (M - 2 - j) }

  // The first nine words stay below their ceilings.
  ghost predicate Below(v: seq<Word16>) {
    |v| == M && forall j :: 0 <= j < M - 1 ==> v[j] <= Ceiling(j)
  }

  lemma VectorBelow(cb: Codebooks, code: Code)
    requires WithinMaxima(cb) && code.Valid()
    ensures Below(Vector(cb, code))
  {
    forall j | 0 <= j < M - 1 ensures VectorWord(cb, code, j) <= Ceiling(j) {
      var c := if j < NC then code.c1 else code.c2;
      assert cb.first[code.c0][j] <= FIRST_MAX[j] && cb.second[c][j] <= SECOND_MAX[j];
      MaximaBelow(j);
    }
  }

  lemma MaximaBelow(j: int)
    requires 0 <= j < M - 1
    ensures 0 <= FIRST_MAX[j] + SECOND_MAX[j] <= Ceiling(j) < 0x7fff
  {}

  // ----- Expansion

  lemma PushBelow(b: seq<Word16>, gap: Word16, j: nat)
    requires Below(b) && 0 < j < M && 0 <= gap <= 10
    ensures Below(PushApart(b, gap, j))
  {
    LackBound(b[j - 1], b[j], gap);
    hide Lack;
  }

  // A positive push moves a pair at most to its middle and half a gap beyond.
  lemma LackBound(x: Word16, y: Word16, gap: Word16)
    requires 0 <= gap <= 10
    ensures Lack(x, y, gap) > 0 ==> 2 * (Lack(x, y, gap) as int) + y <= (x as int) + gap
  {
    assert TwoTo(1) == 2;
    assert FloorShift(Add(Sub(x, y), gap), 1) == Add(Sub(x, y), gap) / 2;
  }

  lemma {:induction false} ExpandedBelow(b: seq<Word16>, gap: Word16, hi: nat)
    requires Below(b) && 1 <= hi <= M && 0 <= gap <= 10
    ensures Below(Expanded(b, gap, 1, hi))
  {
    hide PushApart, Below;
    LengthOf(b);
    if hi > 1 {
      ExpandedBelow(b, gap, hi - 1);
      PushBelow(Expanded(b, gap, 1, hi - 1), gap, hi - 1);
    }
  }

  lemma ElementaryBelow(cb: Codebooks, code: Code)
    requires WithinMaxima(cb) && code.Valid()
    ensures Below(Elementary(cb, code))
  {
    hide Below, Expanded, WithinMaxima, Vector;
    Shape(cb);
    VectorBelow(cb, code);
    LengthOf(Vector(cb, code));
    ExpandedBelow(Vector(cb, code), GAP1, M);
    ExpandedBelow(Expanded(Vector(cb, code), GAP1, 1, M), GAP2, M);
  }

  // ----- Prediction

  // The weights of column j up to n, that of the elementary vector included.
  function Weight(sum: int, fg: seq<Row>, j: nat, n: nat): int
    requires n <= MA_NP && IsTable(fg, MA_NP) && j < M
  {
    if n == 0 then sum else Weight(sum, fg, j, n - 1) + fg[n - 1][j]
  }

  lemma WeightsBelowOne(mode: int, j: nat)
    requires 0 <= mode < 2 && j < M
    ensures |FG[mode]| == MA_NP && IsTable(FG[mode], MA_NP) && 0 <= FG_SUM[mode][j]
    ensures forall n :: 0 <= n < MA_NP ==> FG[mode][n][j] >= 0
    ensures Weight(FG_SUM[mode][j], FG[mode], j, MA_NP) <= 0x8000
  {
    var sum, fg := FG_SUM[mode][j], FG[mode];
    TableSums(mode, j);
    hide FG, FG_SUM;
    assert Weight(sum, fg, j, 0) == sum;
    assert Weight(sum, fg, j, 2) == sum + fg[0][j] + fg[1][j];
    assert Weight(sum, fg, j, 4) == sum + fg[0][j] + fg[1][j] + fg[2][j] + fg[3][j];
  }

  lemma TableSums(mode: int, j: nat)
    requires 0 <= mode < 2 && j < M
    ensures |FG[mode]| == MA_NP && IsTable(FG[mode], MA_NP) && |FG_SUM[mode]| == M && 0 <= FG_SUM[mode][j]
    ensures forall n :: 0 <= n < MA_NP ==> FG[mode][n][j] >= 0
    ensures FG_SUM[mode][j] as int + FG[mode][0][j] + FG[mode][1][j] + FG[mode][2][j] + FG[mode][3][j] <= 0x8000
  {}

  lemma {:induction false} WeightGrows(sum: int, fg: seq<Row>, j: nat, n: nat)
    requires n <= MA_NP && IsTable(fg, MA_NP) && j < M && sum >= 0 && forall k :: 0 <= k < MA_NP ==> fg[k][j] >= 0
    ensures 0 <= Weight(sum, fg, j, n) <= Weight(sum, fg, j, MA_NP)
    decreases MA_NP - n
  {
    if n < MA_NP { WeightGrows(sum, fg, j, n + 1); }
    WeightNonNegative(sum, fg, j, n);
  }

  lemma {:induction false} WeightNonNegative(sum: int, fg: seq<Row>, j: nat, n: nat)
    requires n <= MA_NP && IsTable(fg, MA_NP) && j < M && sum >= 0 && forall k :: 0 <= k < MA_NP ==> fg[k][j] >= 0
    ensures 0 <= Weight(sum, fg, j, n)
  {
    if n > 0 { WeightNonNegative(sum, fg, j, n - 1); }
  }

  // A weighted sum of words up to c stays below c times the weights, and never saturates downwards.
  lemma {:induction false} ColumnBelow(ele: Word16, sum: Word16, prev: seq<Row>, fg: seq<Row>, j: nat, n: nat, c: int)
    requires n <= MA_NP && IsTable(prev, MA_NP) && IsTable(fg, MA_NP) && j < M
    requires sum >= 0 && (forall k :: 0 <= k < MA_NP ==> fg[k][j] >= 0) && Weight(sum, fg, j, MA_NP) <= 0x8000
    requires ele <= c && forall k :: 0 <= k < MA_NP ==> prev[k][j] <= c
    ensures -0x1_0000 * Weight(sum, fg, j, n) <= MacColumn(LMult(ele, sum), prev, fg, j, n)
         <= Product(2 * c, Weight(sum, fg, j, n))
  {
    hide Product, LMac, LMult;
    WeightGrows(sum, fg, j, n);
    if n == 0 {
      TimesZero(2 * c);
      TermBelow(0, ele, sum, 0, c);
      MacFromZero(ele, sum);
    } else {
      ColumnBelow(ele, sum, prev, fg, j, n - 1, c);
      WeightGrows(sum, fg, j, n - 1);
      TermBelow(MacColumn(LMult(ele, sum), prev, fg, j, n - 1), prev[n - 1][j], fg[n - 1][j],
                Weight(sum, fg, j, n - 1), c);
    }
  }

  lemma TimesZero(x: int)
    ensures Product(x, 0) == 0
  {}

  lemma MacFromZero(x: Word16, y: Word16)
    ensures LMac(0, x, y) == LMult(x, y)
  {}

  lemma TermBelow(acc: Word32, x: Word16, y: Word16, w: int, c: int)
    requires y >= 0 && 0 <= w && w + y <= 0x8000 && x <= c
    requires -0x1_0000 * w <= acc <= Product(2 * c, w)
    ensures -0x1_0000 * (w + y) <= LMac(acc, x, y) <= Product(2 * c, w + y)
  {
    ProductBound(x, y);
    MulMono(x, c, y);
    MulMono(-0x8000, x, y);
    assert 2 * c * (w + y) == 2 * c * w + 2 * (c * y);
  }

  lemma ComposedBelow(ele: Row, prev: seq<Row>, mode: int)
    requires 0 <= mode < 2 && Below(ele) && IsTable(prev, MA_NP) && forall k :: 0 <= k < MA_NP ==> Below(prev[k])
    ensures |FG[mode]| == MA_NP && IsTable(FG[mode], MA_NP) && |FG_SUM[mode]| == M
    ensures Below(Composed(ele, FG[mode], prev, FG_SUM[mode]))
  {
    hide MacColumn, Weight, ExtractH, LMult;
    WeightsBelowOne(mode, 0);
    forall j | 0 <= j < M - 1 ensures ComposeWord(ele[j], FG_SUM[mode][j], prev, FG[mode], j) <= Ceiling(j) {
      WeightsBelowOne(mode, j);
      MaximaBelow(j);
      assert forall k :: 0 <= k < MA_NP ==> prev[k][j] <= Ceiling(j);
      ColumnBelow(ele[j], FG_SUM[mode][j], prev, FG[mode], j, MA_NP, Ceiling(j));
      WeightGrows(FG_SUM[mode][j], FG[mode], j, MA_NP);
      HighHalf(MacColumn(LMult(ele[j], FG_SUM[mode][j]), prev, FG[mode], j, MA_NP), Ceiling(j),
               Weight(FG_SUM[mode][j], FG[mode], j, MA_NP));
    }
  }

  lemma HighHalf(acc: Word32, c: int, w: int)
    requires 0 <= c && 0 <= w <= 0x8000 && acc <= Product(2 * c, w)
    ensures ExtractH(acc) <= c
  {
    MulMono(w, 0x8000, 2 * c);
  }

  // ----- Stabilisation

  lemma {:induction false} CarryBelow(b: seq<Word16>, j: nat)
    requires Below(b) && j < M - 1
    ensures Carry(b, j) <= Ceiling(j) && Exchanged(b, j) <= Ceiling(j)
  {
    if j > 0 { CarryBelow(b, j - 1); }
  }

  /** A vector below its ceilings keeps all nine gaps. */
  lemma BelowIsSpaced(b: seq<Word16>)
    requires Below(b)
    ensures forall j :: 0 <= j < M - 1 ==> Gap(Stabilised(b), j)
  {
    hide Exchanged, Stabilised, Below, Gap;
    LengthOf(b);
    forall j | 0 <= j < M - 1 ensures Exchanged(b, j) <= Ceiling(j) {
      CarryBelow(b, j);
    }
    StabilityExact(b);
    assert RoomTo(b, M - 2, M_LIMIT - GAP3);
    assert RoomTo(b, M - 2, MAX_16);
  }

  lemma LengthOf(b: seq<Word16>)
    requires Below(b)
    ensures |b| == M
  {}

  // ----- Runs

  ghost predicate Codes(codes: seq<Code>) { forall i :: 0 <= i < |codes| ==> codes[i].Valid() }

  // The memory of either side after n codes from the reset.
  function Memory(cb: Codebooks, codes: seq<Code>, n: nat): (prev: seq<Row>)
    requires cb.Valid() && n <= |codes| && forall i :: 0 <= i < |codes| ==> codes[i].Valid()
    ensures |prev| == MA_NP && IsTable(prev, MA_NP)
  {
    if n == 0 then InitialMemory()
    else
      var prev := Memory(cb, codes, n - 1);
      PushedIsTable(Elementary(cb, codes[n - 1]), prev);
      Pushed(Elementary(cb, codes[n - 1]), prev)
  }

  lemma {:induction false} MemoryBelow(cb: Codebooks, codes: seq<Code>, n: nat)
    requires WithinMaxima(cb) && Codes(codes) && n <= |codes|
    ensures forall k :: 0 <= k < MA_NP ==> Below(Memory(cb, codes, n)[k])
  {
    hide Elementary, WithinMaxima;
    Shape(cb);
    if n > 0 {
      hide Below;
      MemoryBelow(cb, codes, n - 1);
      ElementaryBelow(cb, codes[n - 1]);
    }
  }

  lemma Shape(cb: Codebooks)
    requires WithinMaxima(cb)
    ensures cb.Valid()
  {}

  /** In every error-free run every quantised spectrum has all nine gaps and meets both limits. */
  lemma RunKeepsGaps(cb: Codebooks, codes: seq<Code>, n: nat)
    requires WithinMaxima(cb) && Codes(codes) && n < |codes|
    ensures var q := Quantised(cb, codes[n], Memory(cb, codes, n));
      && (forall j :: 0 <= j < M - 1 ==> Gap(q, j)) && q[0] >= L_LIMIT && q[M - 1] <= M_LIMIT
  {
    hide Elementary, WithinMaxima, Memory, Below, Stabilised, ComposeWord, Gap;
    Shape(cb);
    MemoryBelow(cb, codes, n);
    ElementaryBelow(cb, codes[n]);
    ComposedBelow(Elementary(cb, codes[n]), Memory(cb, codes, n), codes[n].mode);
    var b := Composed(Elementary(cb, codes[n]), FG[codes[n].mode], Memory(cb, codes, n), FG_SUM[codes[n].mode]);
    BelowIsSpaced(b);
    StabilityExact(b);
  }
}
