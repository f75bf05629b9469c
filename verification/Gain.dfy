/** Gain quantisation: the predictor of the fixed-codebook gain (GAINPRED.C, DSPFUNC.C), the
    encoder's search (QUA_GAIN.C) and the decoder with its concealment (DEC_GAIN.C). */
module Gain {
  import opened BasicOp
  import opened Ld8a
  import opened Oper32b

  const NCODE1 := 8
  const NCODE2 := 16
  const NCAN1 := 4
  const NCAN2 := 8
  const INV_COEF: Word16 := -17103
  const GP0999 := 16383
  const MIN_ENERGY: Word16 := -14336

  // Pitch gain (Q14) and correction of the fixed-codebook gain (Q13) of the two stages.
  const GBK1_PITCH: seq<Word16> := [1, 1551, 1831, 57, 1921, 3242, 356, 2678]
  const GBK1_CODE: seq<Word16> := [1516, 2425, 5022, 5404, 9291, 9949, 14756, 27162]
  const GBK2_PITCH: seq<Word16> := [826, 1994, 5142, 6160, 8091, 9120, 10573, 11569,
                                    13260, 14194, 15132, 15161, 15434, 16112, 17299, 18973]
  const GBK2_CODE: seq<Word16> := [2005, 0, 592, 2395, 4861, 525, 2966, 1196,
                                   3256, 1630, 4914, 14276, 237, 3392, 1861, 5935]
  const MAP1: seq<Word16> := [5, 1, 4, 7, 3, 0, 6, 2]
  const MAP2: seq<Word16> := [4, 6, 0, 2, 12, 14, 8, 10, 15, 11, 9, 13, 7, 3, 1, 5]
  const IMAP1: seq<Word16> := [5, 1, 7, 4, 2, 0, 6, 3]
  const IMAP2: seq<Word16> := [2, 14, 3, 13, 0, 15, 1, 12, 6, 10, 7, 9, 4, 11, 5, 8]
  const PRED: seq<Word16> := [5571, 4751, 2785, 1556]
  const THR1: seq<Word16> := [10808, 12374, 19778, 32567]
  const THR2: seq<Word16> := [14087, 16188, 20274, 21321, 23525, 25232, 27873, 30542]
  const TABPOW: seq<Word16> := [
    16384, 16743, 17109, 17484, 17867, 18258, 18658, 19066, 19484, 19911, 20347, 20792, 21247, 21713, 22188, 22674,
    23170, 23678, 24196, 24726, 25268, 25821, 26386, 26964, 27554, 28158, 28774, 29405, 30048, 30706, 31379, 32066,
    32767]
  const TABLOG: seq<Word16> := [
    0, 1455, 2866, 4236, 5568, 6863, 8124, 9352, 10549, 11716, 12855, 13967, 15054, 16117, 17156, 18172, 19167,
    20142, 21097, 22033, 22951, 23852, 24735, 25603, 26455, 27291, 28113, 28922, 29716, 30497, 31266, 32023, 32767]

  // ----- Logarithm and power by table

  // Between two neighbouring table entries, at a of 2^15, in the upper half word.
  function Interpolated(x: Word16, y: Word16, a: Word16): Word32 {
    LMsu(LDepositH(x), Sub(x, y), a)
  }

  lemma InterpolatedExactly(x: Word16, y: Word16, a: Word16)
    requires 0 <= x <= y && 0 <= a
    ensures Interpolated(x, y, a) == x * 0x1_0000 + 2 * Product(y - x, a)
    ensures 0 <= 2 * Product(y - x, a) <= (y - x) * 0x1_0000
  {
    ProductBound(Sub(x, y), a);
    MulMono(a, 0x8000, y - x);
    MulMono(0, a, y - x);
    assert (x - y) * a == -(a * (y - x));
  }

  // The value a of the way from x to y, rounded down.
  function Towards(x: int, y: int, a: int): int { x + Product(y - x, a) / 0x8000 }

  function PowStep(i: nat): Word16
    requires i <= 32
  {
    TABPOW[i]
  }

  function LogStep(i: nat): Word16
    requires i <= 32
  {
    TABLOG[i]
  }

  lemma TablesRise(i: nat)
    requires i < 32
    ensures 0 <= LogStep(i) <= LogStep(i + 1) && 16384 <= PowStep(i) <= PowStep(i + 1) <= 32767
  {}

  // The table cell of the mantissa x * 2^norm, which lies in [2^30, 2^31), and the way into it.
  function LogCell(x: Word32): (i: nat)
    requires x > 0
    ensures i < 32
  {
    LogIndex(x);
    Product(x, TwoTo(NormL(x))) / 0x200_0000 - 32
  }

  function LogPart(x: Word32): (a: nat)
    requires x > 0
    ensures a < 0x8000
  {
    Product(x, TwoTo(NormL(x))) % 0x200_0000 / 0x400
  }

  // The integer and the fractional part of the binary logarithm, zero for x <= 0: the position
  // of the top bit, and the linear interpolation of the table at the mantissa.
  function Log2(x: Word32): (r: Dpf)
    ensures 0 <= r.hi <= 30 && 0 <= r.lo
    ensures x > 0 ==> r.hi == 30 - NormL(x)
    ensures x > 0 ==> r.lo as int == Towards(LogStep(LogCell(x)), LogStep(LogCell(x) + 1), LogPart(x))
    ensures x > 0 ==> LogStep(LogCell(x)) <= r.lo <= LogStep(LogCell(x) + 1)
  {
    hide NormL, LShr, LMsu, LogStep, Sub, LogCell, LogPart, Product, ExtractL;
    if x <= 0 then Dpf(0, 0)
    else
      LogIndex(x);
      LogExtracts(x);
      var z := LShr(LShl(x, NormL(x)), 9);
      var i := ExtractH(z) - 32;
      var a := ExtractL(LShr(z, 1)) % 0x8000;
      TablesRise(i);
      InterpolatedExactly(LogStep(i), LogStep(i + 1), a);
      Dpf(30 - NormL(x), ExtractH(Interpolated(LogStep(i), LogStep(i + 1), a)))
  }

  lemma LogIndex(x: Word32)
    requires x > 0
    ensures 0 <= NormL(x) <= 30
    ensures 0 <= Product(x, TwoTo(NormL(x))) / 0x200_0000 - 32 < 32
  {
    hide NormMagnitude;
    NormalizedShift(x);
  }

  // The bits the source extracts are the cell and the way into it.
  lemma LogExtracts(x: Word32)
    requires x > 0
    ensures var z := LShr(LShl(x, NormL(x)), 9);
      ExtractH(z) == LogCell(x) + 32 && ExtractL(LShr(z, 1)) % 0x8000 == LogPart(x)
  {
    NormalizedShift(x);
    LogIndex(x);
    hide NormL, LShr, Product, TwoTo;
    var y := Product(x, TwoTo(NormL(x)));
    assert LShl(x, NormL(x)) == y by { IsProduct(x, TwoTo(NormL(x))); }
    ShiftsOf(y);
    LogBits(y, y / 0x200_0000, y % 0x200_0000);
  }

  lemma ShiftsOf(y: Word32)
    ensures LShr(y, 9) == y / 512 && LShr(LShr(y, 9), 1) == y / 512 / 2
  {
    assert TwoTo(9) == 512;
    assert TwoTo(1) == 2;
  }

  lemma LogBits(y: Word32, q: int, r: int)
    requires y == 0x200_0000 * q + r && 0 <= r < 0x200_0000 && 32 <= q < 64
    ensures ExtractH(y / 512) == q && ExtractL(y / 512 / 2) % 0x8000 == r / 0x400
  {
    DivUnique(y, 512, 0x1_0000 * q + r / 512);
    DivUnique(y / 512, 0x1_0000, q);
    DivUnique(y / 512, 2, 0x8000 * q + r / 0x400);
    LowBits(y / 512 / 2, q, r / 0x400);
  }

  // The low 15 bits of a word.
  lemma LowBits(v: Word32, q: int, s: int)
    requires v == 0x8000 * q + s && 0 <= s < 0x8000
    ensures ExtractL(v) % 0x8000 == s
  {
    Wrap16Unique(v, if q % 2 == 0 then s else s - 0x8000, (q + 1) / 2);
  }

  // The table cell of a fraction in Q15.
  function PowCell(fraction: Word16): (i: nat)
    requires 0 <= fraction
    ensures i < 32
  {
    fraction / 1024
  }

  // 2 to the power 14 + fraction, fraction in Q15: the interpolated table, rounded.
  function Pow2Of14(fraction: Word16): (r: Word32)
    requires 0 <= fraction
    ensures 16384 <= r <= 32767
  {
    hide LShr, LShrR, LMult, PowStep, Sub, PowCell, Product, Interpolated, ExtractH, ExtractL;
    PowExtracts(fraction);
    var x := LMult(fraction, 32);
    var i := ExtractH(x);
    var a := ExtractL(LShr(x, 1)) % 0x8000;
    TablesRise(i);
    RoundedHalf(PowStep(i), PowStep(i + 1), a);
    LShrR(Interpolated(PowStep(i), PowStep(i + 1), a), Sub(30, 14))
  }

  /** Its value is the linear interpolation of the table at the fraction, rounded. */
  lemma PowInterpolates(fraction: Word16)
    requires 0 <= fraction
    ensures var x, y := PowStep(PowCell(fraction)), PowStep(PowCell(fraction) + 1);
      && x <= Pow2Of14(fraction) <= y
      && Pow2Of14(fraction) as int == x + (Product(y - x, 32 * (fraction % 1024)) + 0x4000) / 0x8000
  {
    hide LShr, LShrR, LMult, PowStep, Sub, PowCell, Product, Interpolated, ExtractH, ExtractL;
    PowExtracts(fraction);
    TablesRise(PowCell(fraction));
    RoundedHalf(PowStep(PowCell(fraction)), PowStep(PowCell(fraction) + 1), 32 * (fraction % 1024));
  }

  lemma PowExtracts(fraction: Word16)
    requires 0 <= fraction
    ensures var x := LMult(fraction, 32);
      ExtractH(x) == PowCell(fraction) && ExtractL(LShr(x, 1)) % 0x8000 == 32 * (fraction % 1024)
  {
    var q, s: int := fraction / 1024, fraction % 1024;
    var x: int := 64 * (fraction as int);
    assert TwoTo(1) == 2;
    assert LMult(fraction, 32) == x && LShr(x, 1) == x / 2;
    DivUnique(x, 0x1_0000, q);
    DivUnique(x, 2, 0x8000 * q + 32 * s);
    LowBits(x / 2, q, 32 * s);
  }

  lemma RoundedHalf(x: Word16, y: Word16, a: Word16)
    requires 16384 <= x <= y && 0 <= a
    ensures var r := LShrR(Interpolated(x, y, a), Sub(30, 14));
      x <= r <= y && r as int == x + (Product(y - x, a) + 0x4000) / 0x8000
  {
    InterpolatedExactly(x, y, a);
    hide Interpolated, Product, LShrR;
    var p := Product(y - x, a);
    RoundBits(Interpolated(x, y, a));
    DivUnique(x * 0x1_0000 + 2 * p + 0x8000, 0x1_0000, x + (p + 0x4000) / 0x8000);
  }

  lemma RoundBits(t: Word32)
    requires 0 <= t
    ensures LShrR(t, Sub(30, 14)) as int == (t + 0x8000) / 0x1_0000
  {
    TwoToWord();
    assert FloorShift(t, 15) == t / 0x8000 && FloorShift(t, 16) == t / 0x1_0000;
    var q, r := t / 0x1_0000, t % 0x1_0000;
    DivUnique(t, 0x8000, 2 * q + r / 0x8000);
    DivUnique(t + 0x8000, 0x1_0000, q + r / 0x8000);
  }

  /** The mantissa of the predicted gain can be as small as 16384. */
  lemma SmallestPower()
    ensures Pow2Of14(0) == 16384
  {
    hide Pow2Of14;
    PowInterpolates(0);
    assert PowStep(0) == 16384 && Product(PowStep(1) - PowStep(0), 0) == 0;
  }

  // ----- The predictor

  function CodeEnergy(code: seq<Word16>, n: nat): Word32
    requires n <= |code|
  {
    if n == 0 then 0 else LMac(CodeEnergy(code, n - 1), code[n - 1], code[n - 1])
  }

  function Correlated(acc: Word32, past: seq<Word16>, n: nat): Word32
    requires n <= 4 == |past|
  {
    if n == 0 then acc else LMac(Correlated(acc, past, n - 1), PRED[n - 1], past[n - 1])
  }

  // Predicted gain: mantissa in [2^14, 2^15) and its Q format.
  datatype Predicted = Predicted(gcode0: Word16, exponent: Word16)

  function FromEnergy(past: seq<Word16>, energy: Word32): (p: Predicted)
    requires |past| == 4
    ensures 16384 <= p.gcode0
  {
    hide Log2, Mpy32By16, LMac, LShr, LMult, LExtract;
    var start := LShl(LMac(Mpy32By16(Log2(energy), -24660), 32588, 32), 10);
    FromLogarithm(ExtractH(Correlated(start, past, 4)))
  }

  function FromLogarithm(level: Word16): (p: Predicted)
    ensures 16384 <= p.gcode0
  {
    hide LShr, LMult, LExtract, Pow2Of14;
    var x := LShr(LMult(level, 5439), 8);
    LowPart(x);
    var d := LExtract(x);
    Predicted(ExtractL(Pow2Of14(d.lo)), Sub(14, d.hi))
  }

  lemma LowPart(x: Word32)
    ensures 0 <= LExtract(x).lo
  {
    ExtractDropsOneBit(x);
  }

  /** Gain_predict */
  method GainPredict(past: array<Word16>, code: seq<Word16>) returns (p: Predicted)
    requires past.Length == 4
    ensures p == FromEnergy(past[..], CodeEnergy(code, |code|))
    ensures 16384 <= p.gcode0
  {
    hide Log2, Mpy32By16, LMac, LShr, LMult, LExtract, FromLogarithm;
    var acc: Word32 := 0;
    for i := 0 to |code|
      invariant acc == CodeEnergy(code, i)
    {
      acc := LMac(acc, code[i], code[i]);
    }
    var d := Log2(acc);
    acc := LMac(Mpy32By16(d, -24660), 32588, 32);
    acc := LShl(acc, 10);
    ghost var start := acc;
    for i := 0 to 4
      invariant acc == Correlated(start, past[..], i)
    {
      acc := LMac(acc, PRED[i], past[i]);
    }
    p := FromLogarithm(ExtractH(acc));
  }

  // 20 log10 of the correction factor, in Q10.
  function LogEnergy(factor: Word32): Word16 {
    hide LShr, LMac, LAdd, LMult;
    var d := Log2(factor);
    Mult(ExtractH(LShl(LComp(Dpf(Sub(d.hi, 13), d.lo)), 13)), 24660)
  }

  function Shifted(past: seq<Word16>, newest: Word16): (next: seq<Word16>)
    requires |past| == 4
    ensures |next| == 4
  {
    [newest] + past[..3]
  }

  method ShiftIn(past: array<Word16>, newest: Word16)
    requires past.Length == 4
    modifies past
    ensures past[..] == Shifted(old(past[..]), newest)
  {
    var i := 3;
    while i > 0
      invariant 0 <= i <= 3
      invariant forall k :: 0 <= k <= i ==> past[k] == old(past[k])
      invariant forall k :: i < k < 4 ==> past[k] == old(past[k - 1])
    {
      past[i] := past[i - 1];
      i := i - 1;
    }
    past[0] := newest;
  }

  // The mean of the four energies less 4 dB, but never below -14 dB.
  function Attenuated(past: seq<Word16>): Word16
    requires |past| == 4
  {
    var sum: int := past[0] as int + past[1] as int + past[2] as int + past[3] as int;
    var mean := sum / 4 - 4096;
    if mean < MIN_ENERGY then MIN_ENERGY else mean
  }

  /** Gain_update_erasure: for every memory the sum, the mean and the attenuation are exact. */
  method GainUpdateErasure(past: array<Word16>)
    requires past.Length == 4
    modifies past
    ensures past[..] == Shifted(old(past[..]), Attenuated(old(past[..])))
  {
    var sum: Word32 := 0;
    ghost var exact: int := 0;
    for i := 0 to 4
      invariant sum == exact && -0x8000 * i <= exact <= 0x7fff * i
      invariant i == 4 ==> exact == past[0] as int + past[1] + past[2] + past[3]
      invariant i == 3 ==> exact == past[0] as int + past[1] + past[2]
      invariant i == 2 ==> exact == past[0] as int + past[1]
      invariant i == 1 ==> exact == past[0] as int
    {
      exact := exact + past[i];
      sum := LAdd(sum, past[i]);
    }
    var av := MeanOf(sum);
    av := Sub(av, 4096);
    if Sub(av, MIN_ENERGY) < 0 {
      av := MIN_ENERGY;
    }
    assert av == Attenuated(past[..]);
    ShiftIn(past, av);
  }

  method MeanOf(sum: Word32) returns (mean: Word16)
    requires -0x2_0000 <= sum <= 0x1_fffc
    ensures mean == sum / 4
  {
    assert TwoTo(2) == 4;
    mean := ExtractL(LShr(sum, 2));
  }

  // ----- The index

  function Index(i1: nat, i2: nat): Word16
    requires i1 < NCODE1 && i2 < NCODE2
  {
    Add(Clamp16(MAP1[i1] * NCODE2), MAP2[i2])
  }

  function First(index: Word16): (i1: nat)
    requires 0 <= index < 128
    ensures i1 < NCODE1
  {
    assert TwoTo(4) == 16;
    assert FloorShift(index, 4) == index / 16;
    IMAP1[Shr(index, 4)]
  }

  function Second(index: Word16): (i2: nat)
    ensures i2 < NCODE2
  {
    IMAP2[index % NCODE2]
  }

  /** The decoder's tables undo the encoder's, and every 7-bit index is used. */
  lemma IndexRoundTrip(i1: nat, i2: nat)
    requires i1 < NCODE1 && i2 < NCODE2
    ensures 0 <= Index(i1, i2) < 128 && First(Index(i1, i2)) == i1 && Second(Index(i1, i2)) == i2
  {
    MapsInvert(i1, i2);
    assert TwoTo(4) == 16;
    var index := Index(i1, i2);
    assert index == MAP1[i1] * 16 + MAP2[i2];
    assert FloorShift(index, 4) == index / 16 == MAP1[i1];
  }

  /** The index sent, written out. */
  lemma IndexWrittenOut(i1: nat, i2: nat)
    requires i1 < NCODE1 && i2 < NCODE2
    ensures Index(i1, i2) as int == 16 * MAP1[i1] + MAP2[i2]
  {
    MapsInvert(i1, i2);
  }

  lemma MapsInvert(i1: nat, i2: nat)
    requires i1 < NCODE1 && i2 < NCODE2
    ensures 0 <= MAP1[i1] < NCODE1 && IMAP1[MAP1[i1]] == i1
    ensures 0 <= MAP2[i2] < NCODE2 && IMAP2[MAP2[i2]] == i2
  {}

  lemma EveryIndexIsUsed(index: Word16)
    requires 0 <= index < 128
    ensures Index(First(index), Second(index)) == index
  {
    assert TwoTo(4) == 16;
    assert FloorShift(index, 4) == index / 16;
    InverseMaps(index / 16, index % 16);
  }

  lemma InverseMaps(a: nat, b: nat)
    requires a < NCODE1 && b < NCODE2
    ensures MAP1[IMAP1[a]] == a && MAP2[IMAP2[b]] == b
  {}

  // ----- The gains of a pair of codebook entries

  datatype Gains = Gains(pit: Word16, cod: Word16)

  function PitchOf(i1: nat, i2: nat): Word16
    requires i1 < NCODE1 && i2 < NCODE2
  {
    Add(GBK1_PITCH[i1], GBK2_PITCH[i2])
  }

  function Factor(i1: nat, i2: nat): Word32
    requires i1 < NCODE1 && i2 < NCODE2
  {
    LAdd(GBK1_CODE[i1], GBK2_CODE[i2])
  }

  // The reconstructed fixed-codebook gain.
  function CodeGain(factor: Word32, p: Predicted): Word16 {
    ExtractH(LShl(LMult(ExtractL(LShr(factor, 1)), p.gcode0), Add(Negate(p.exponent), 4)))
  }

  function Reconstructed(past: seq<Word16>, code: seq<Word16>, i1: nat, i2: nat): Gains
    requires |past| == 4 && i1 < NCODE1 && i2 < NCODE2
  {
    Gains(PitchOf(i1, i2), CodeGain(Factor(i1, i2), FromEnergy(past, CodeEnergy(code, |code|))))
  }

  function Remembered(past: seq<Word16>, i1: nat, i2: nat): (next: seq<Word16>)
    requires |past| == 4 && i1 < NCODE1 && i2 < NCODE2
    ensures |next| == 4
  {
    Shifted(past, LogEnergy(Factor(i1, i2)))
  }

  function Concealed(g: Gains): Gains {
    Gains(if Mult(g.pit, 29491) > 29491 then 29491 else Mult(g.pit, 29491), Mult(g.cod, 32111))
  }

  // ----- The encoder

  // First entry of the window preselected by the thresholds.
  function Preselected(x: Word32, thr: seq<Word16>, gcode0: Word16, shift: int, k: nat): (c: nat)
    requires k <= |thr|
    ensures k <= c <= |thr|
    decreases |thr| - k
  {
    if k == |thr| then k
    else
      var d := LSub(x, LShr(LMult(thr[k], gcode0), shift));
      if (if gcode0 > 0 then d > 0 else d < 0) then Preselected(x, thr, gcode0, shift, k + 1) else k
  }

  method Preselect(x: Word32, thr: seq<Word16>, gcode0: Word16, shift: Word16) returns (cand: nat)
    requires |thr| > 0
    ensures cand == Preselected(x, thr, gcode0, shift, 0)
    ensures cand <= |thr|
  {
    hide LSub, LMult, LShr;
    cand := 0;
    var again := true;
    while again
      invariant cand <= |thr|
      invariant again ==> cand < |thr|
      invariant if again then Preselected(x, thr, gcode0, shift, cand) == Preselected(x, thr, gcode0, shift, 0)
                else cand == Preselected(x, thr, gcode0, shift, 0)
      decreases again, |thr| - cand
    {
      var d := LSub(x, LShr(LMult(thr[cand], gcode0), shift));
      if (gcode0 > 0 && d > 0) || (gcode0 <= 0 && d < 0) {
        cand := cand + 1;
        again := cand < |thr|;
      } else {
        again := false;
      }
    }
  }

  // The two coordinates the thresholds are compared with.
  function FirstCoordinate(best0: Word16, best1: Word16, gcode0: Word16): Word32 {
    var cfbg := LMult(31881, best0);
    var h := ExtractH(LAdd(cfbg, LShr(1822990272, 15)));
    var acc := LSub(LShl(best1, 7), LMult(h, gcode0));
    LMult(ExtractH(LShl(acc, 2)), INV_COEF)
  }

  function SecondCoordinate(best0: Word16, best1: Word16, gcode0: Word16): Word32 {
    var cfbg := LMult(31881, best0);
    var h := Mult(ExtractH(LSub(cfbg, LShr(1731217536, 10))), gcode0);
    var acc := LSub(LMult(h, 31548), LShr(LMult(31881, best1), 3));
    LMult(ExtractH(LShl(acc, 2)), INV_COEF)
  }

  /** Gbk_presel: both candidate windows lie inside their codebooks, whatever the gains. */
  method GbkPresel(best0: Word16, best1: Word16, gcode0: Word16) returns (cand1: nat, cand2: nat)
    ensures cand1 == Preselected(SecondCoordinate(best0, best1, gcode0), THR1, gcode0, 3, 0)
    ensures cand2 == Preselected(FirstCoordinate(best0, best1, gcode0), THR2, gcode0, 5, 0)
    ensures cand1 + NCAN1 <= NCODE1 && cand2 + NCAN2 <= NCODE2
  {
    hide Preselected, FirstCoordinate, SecondCoordinate;
    cand1 := Preselect(SecondCoordinate(best0, best1, gcode0), THR1, gcode0, 3);
    cand2 := Preselect(FirstCoordinate(best0, best1, gcode0), THR2, gcode0, 5);
  }

  // The error of a pair, on correlations aligned to one exponent.
  function Distortion(coeff: seq<Dpf>, gcode0: Word16, i1: nat, i2: nat): Word32
    requires |coeff| == 5 && i1 < NCODE1 && i2 < NCODE2
  {
    var pitch := PitchOf(i1, i2);
    var code := Mult(gcode0, ExtractL(LShr(Factor(i1, i2), 1)));
    var ofPitch := LAdd(Mpy32By16(coeff[0], Mult(pitch, pitch)), Mpy32By16(coeff[1], pitch));
    var ofCode := LAdd(LAdd(ofPitch, Mpy32By16(coeff[2], Mult(code, code))), Mpy32By16(coeff[3], code));
    LAdd(ofCode, Mpy32By16(coeff[4], Mult(code, pitch)))
  }

  // Under taming only pairs whose pitch gain stays below 1 are considered.
  predicate Allowed(tame: bool, i1: nat, i2: nat)
    requires i1 < NCODE1 && i2 < NCODE2
  {
    tame ==> PitchOf(i1, i2) < GP0999
  }

  // Pair k of the window, in the order of the two loops.
  predicate InWindow(cand1: nat, cand2: nat, i1: nat, i2: nat) {
    cand1 <= i1 < cand1 + NCAN1 && cand2 <= i2 < cand2 + NCAN2
  }

  predicate Before(i1: nat, i2: nat, j1: nat, j2: nat) { i1 < j1 || (i1 == j1 && i2 < j2) }

  // (i1, i2) is the first allowed pair with the smallest error among those before (e1, e2).
  ghost predicate BestPair(coeff: seq<Dpf>, gcode0: Word16, tame: bool, cand1: nat, cand2: nat, i1: nat, i2: nat,
      e1: nat, e2: nat)
    requires |coeff| == 5 && cand1 + NCAN1 <= NCODE1 && cand2 + NCAN2 <= NCODE2
  {
    && InWindow(cand1, cand2, i1, i2) && Allowed(tame, i1, i2)
    && forall j1: nat, j2: nat :: InWindow(cand1, cand2, j1, j2) && Before(j1, j2, e1, e2) && Allowed(tame, j1, j2) ==>
         if Before(j1, j2, i1, i2) then Distortion(coeff, gcode0, j1, j2) > Distortion(coeff, gcode0, i1, i2)
         else Distortion(coeff, gcode0, j1, j2) >= Distortion(coeff, gcode0, i1, i2)
  }

  lemma FirstIsAllowed(tame: bool, cand1: nat, cand2: nat)
    requires cand1 + NCAN1 <= NCODE1 && cand2 + NCAN2 <= NCODE2
    ensures Allowed(tame, cand1, cand2)
  {}

  // One pair of the double loop.
  lemma NextPair(coeff: seq<Dpf>, gcode0: Word16, tame: bool, cand1: nat, cand2: nat, i1: nat, i2: nat, e1: nat,
      e2: nat)
    requires |coeff| == 5 && cand1 + NCAN1 <= NCODE1 && cand2 + NCAN2 <= NCODE2
    requires InWindow(cand1, cand2, e1, e2) && BestPair(coeff, gcode0, tame, cand1, cand2, i1, i2, e1, e2)
    requires Before(i1, i2, e1, e2) || (i1 == e1 && i2 == e2)
    ensures !Allowed(tame, e1, e2) || Distortion(coeff, gcode0, e1, e2) >= Distortion(coeff, gcode0, i1, i2)
      ==> BestPair(coeff, gcode0, tame, cand1, cand2, i1, i2, e1, e2 + 1)
    ensures Allowed(tame, e1, e2) && Distortion(coeff, gcode0, e1, e2) < Distortion(coeff, gcode0, i1, i2)
      ==> BestPair(coeff, gcode0, tame, cand1, cand2, e1, e2, e1, e2 + 1)
  {
    hide Distortion, Allowed;
  }

  // The end of a row is the start of the next.
  lemma NextRow(coeff: seq<Dpf>, gcode0: Word16, tame: bool, cand1: nat, cand2: nat, i1: nat, i2: nat, e1: nat)
    requires |coeff| == 5 && cand1 + NCAN1 <= NCODE1 && cand2 + NCAN2 <= NCODE2
    requires BestPair(coeff, gcode0, tame, cand1, cand2, i1, i2, e1, cand2 + NCAN2)
    ensures BestPair(coeff, gcode0, tame, cand1, cand2, i1, i2, e1 + 1, cand2)
  {}

  /** The codebook search: the first pair of least error in the window.  With taming its pitch
      gain is below 1, because the first pair of every window already is. */
  method SearchGains(coeff: seq<Dpf>, gcode0: Word16, tame: bool, cand1: nat, cand2: nat)
      returns (index1: nat, index2: nat)
    requires |coeff| == 5 && cand1 + NCAN1 <= NCODE1 && cand2 + NCAN2 <= NCODE2
    ensures BestPair(coeff, gcode0, tame, cand1, cand2, index1, index2, cand1 + NCAN1, cand2)
  {
    hide Distortion, Allowed, BestPair, LSub;
    var distMin: Word32 := MAX_32;
    index1, index2 := cand1, cand2;
    FirstIsAllowed(tame, cand1, cand2);
    NoneYet(coeff, gcode0, tame, cand1, cand2);
    for i := 0 to NCAN1
      invariant BestPair(coeff, gcode0, tame, cand1, cand2, index1, index2, cand1 + i, cand2)
      invariant InWindow(cand1, cand2, index1, index2)
      invariant if i == 0 then distMin == MAX_32 && index1 == cand1 && index2 == cand2
                else Before(index1, index2, cand1 + i, cand2) && distMin == Distortion(coeff, gcode0, index1, index2)
    {
      for j := 0 to NCAN2
        invariant BestPair(coeff, gcode0, tame, cand1, cand2, index1, index2, cand1 + i, cand2 + j)
        invariant InWindow(cand1, cand2, index1, index2)
        invariant if i == 0 && j == 0 then distMin == MAX_32 && index1 == cand1 && index2 == cand2
                  else (&& Before(index1, index2, cand1 + i, cand2 + j)
                        && distMin == Distortion(coeff, gcode0, index1, index2))
      {
        NextPair(coeff, gcode0, tame, cand1, cand2, index1, index2, cand1 + i, cand2 + j);
        var admitted := Admit(tame, cand1 + i, cand2 + j);
        if admitted {
          var d := Distortion(coeff, gcode0, cand1 + i, cand2 + j);
          CompareBySub(d, distMin);
          if LSub(d, distMin) < 0 {
            distMin := d;
            index1, index2 := cand1 + i, cand2 + j;
          }
        }
      }
      NextRow(coeff, gcode0, tame, cand1, cand2, index1, index2, cand1 + i);
    }
  }

  lemma NoneYet(coeff: seq<Dpf>, gcode0: Word16, tame: bool, cand1: nat, cand2: nat)
    requires |coeff| == 5 && cand1 + NCAN1 <= NCODE1 && cand2 + NCAN2 <= NCODE2 && Allowed(tame, cand1, cand2)
    ensures BestPair(coeff, gcode0, tame, cand1, cand2, cand1, cand2, cand1, cand2)
  {}

  method Admit(tame: bool, i1: nat, i2: nat) returns (ok: bool)
    requires i1 < NCODE1 && i2 < NCODE2
    ensures ok == Allowed(tame, i1, i2)
  {
    var pitch := PitchOf(i1, i2);
    ok := !tame || pitch < GP0999;
  }

  // The predicted gain in Q4.
  function InQ4(p: Predicted): Word16 {
    if Sub(p.exponent, 4) >= 0 then Shr(p.gcode0, Sub(p.exponent, 4))
    else ExtractH(LShl(p.gcode0, Sub(20, p.exponent)))
  }

  // The first window searched for the given unquantised gains.
  ghost predicate Window(best0: Word16, best1: Word16, p: Predicted, cand1: nat, cand2: nat) {
    && cand1 == Preselected(SecondCoordinate(best0, best1, InQ4(p)), THR1, InQ4(p), 3, 0)
    && cand2 == Preselected(FirstCoordinate(best0, best1, InQ4(p)), THR2, InQ4(p), 5, 0)
    && cand1 + NCAN1 <= NCODE1 && cand2 + NCAN2 <= NCODE2
  }

  // ----- The unquantised gains

  // A difference of two products brought to one exponent.
  datatype Scaled = Scaled(value: Word32, exponent: Word16)

  // Four times c0 * c2 less the square of c4.
  function Determinant(g: seq<Word16>, e: seq<Word16>): Scaled
    requires |g| == |e| == 5
  {
    Difference(LMult(g[0], g[2]), Add(Add(e[0], e[2]), -1), LMult(g[4], g[4]), Add(Add(e[4], e[4]), 1), 0)
  }

  // x at exponent m less y at exponent n, both shifted right by guard more.
  function Difference(x: Word32, m: Word16, y: Word32, n: Word16, guard: Word16): Scaled {
    if Sub(m, n) > 0 then Scaled(LSub(LShr(x, Add(Sub(m, n), guard)), LShr(y, guard)), Sub(n, guard))
    else Scaled(LSub(LShr(x, guard), LShr(y, Add(Sub(n, m), guard))), Sub(m, guard))
  }

  // The upper half of a difference at full scale, and the exponent of that.
  function Normalised(d: Scaled): (Word16, Word16) {
    (ExtractH(LShl(d.value, NormL(d.value))), Sub(Add(d.exponent, NormL(d.value)), 16))
  }

  /** The division by the normalised determinant is defined if and only if the determinant is
      positive; in all other cases div_s ends the program before any gain is quantised. */
  lemma DivisionGuard(d: Scaled)
    ensures 16384 <= Normalised(d).0 <==> d.value > 0
  {
    NormalizedShift(d.value);
    hide NormL, LShr, TwoTo;
    var y := LShl(d.value, NormL(d.value));
    if d.value > 0 {
      SameSign(d.value, TwoTo(NormL(d.value)));
    } else if d.value < 0 {
      var v: int := d.value;
      SameSign(-v, TwoTo(NormL(d.value)));
      assert -v * TwoTo(NormL(d.value)) == -(v * TwoTo(NormL(d.value)));
    }
  }

  lemma SameSign(x: int, d: int)
    requires x > 0 && d > 0
    ensures x * d > 0
  {
    MulMono(1, x, d);
  }

  /** The determinant is positive exactly when the first product, brought to the exponent of the
      second, is the larger one. */
  lemma DeterminantSign(x: Word32, m: Word16, y: Word32, n: Word16)
    ensures Difference(x, m, y, n, 0).value > 0
       <==> if m > n then LShr(x, Sub(m, n)) > y else x > LShr(y, Sub(n, m))
  {
    ShiftByZero(x);
    ShiftByZero(y);
    hide LShr;
  }

  lemma ShiftByZero(x: Word32)
    ensures LShr(x, 0) == x
  {
    assert FloorShift(x, 0) == x / 1;
  }

  /** In exact arithmetic: a determinant that comes out positive is positive, and a positive one is
      lost only when the first product has the larger exponent and exceeds the second by less than
      one unit. */
  lemma DeterminantExact(x: Word32, m: Word16, y: Word32, n: Word16)
    requires MIN_16 < m - n <= MAX_16
    ensures Difference(x, m, y, n, 0).value > 0
       <==> if m > n then x >= (y + 1) * TwoTo(m - n) else x * TwoTo(n - m) > y
  {
    DeterminantSign(x, m, y, n);
    hide LShr;
    if m > n {
      ShiftAbove(x, y + 1, m - n);
    } else {
      ShiftAbove(y, x, n - m);
    }
  }

  // A word shifted right reaches v exactly when it reaches v shifted left.
  lemma ShiftAbove(x: Word32, v: int, n: nat)
    ensures LShr(x, n) >= v <==> x >= v * TwoTo(n)
  {
    hide TwoTo;
    var d := TwoTo(n);
    DivBounds(x, d);
    var q := x / d;
    if q >= v { MulMono(v, q, d); } else { MulMono(q + 1, v, d); }
  }

  /** When the square of the cross term is exactly the product of the energies, as for parallel
      filtered vectors, the determinant is never positive. */
  lemma ParallelVectors(g: seq<Word16>, e: seq<Word16>)
    requires |g| == |e| == 5
    requires var m, n := Add(Add(e[0], e[2]), -1), Add(Add(e[4], e[4]), 1);
      && MIN_16 < m - n <= MAX_16
      && if m > n then LMult(g[0], g[2]) as int == LMult(g[4], g[4]) * TwoTo(m - n)
         else LMult(g[0], g[2]) * TwoTo(n - m) == LMult(g[4], g[4]) as int
    ensures Determinant(g, e).value <= 0
  {
    hide LMult, Add, Difference;
    var m, n := Add(Add(e[0], e[2]), -1), Add(Add(e[4], e[4]), 1);
    DeterminantExact(LMult(g[0], g[2]), m, LMult(g[4], g[4]), n);
    if m > n {
      var p, d := LMult(g[4], g[4]), TwoTo(m - n);
      assert (p + 1) * d == p * d + d;
    }
  }

  /** Two equal vectors of energy 16384: their correlations are their energies, the cross term is
      doubled, and the denominator given to div_s is too small. */
  lemma EqualVectors(g: seq<Word16>, e: seq<Word16>)
    requires g == [16384, 0, 16384, 0, 16384] && e == [0, 0, 0, 0, -1]
    ensures Determinant(g, e).value == 0 && Normalised(Determinant(g, e)).0 < 16384
  {
    hide *;
    EqualProducts(g, e);
    DivisionGuard(Determinant(g, e));
  }

  lemma EqualProducts(g: seq<Word16>, e: seq<Word16>)
    requires g == [16384, 0, 16384, 0, 16384] && e == [0, 0, 0, 0, -1]
    ensures Determinant(g, e).value == 0
  {
    hide LMult, Difference;
    var p := LMult(g[0], g[2]);
    assert g[4] == g[0] && g[4] == g[2];
    assert Add(Add(e[0], e[2]), -1) == -1;
    assert Add(Add(e[4], e[4]), 1) == -1;
    assert Determinant(g, e) == Difference(p, -1, p, -1, 0);
    NoDifference(p, -1);
  }

  lemma NoDifference(x: Word32, m: Word16)
    ensures Difference(x, m, x, m, 0).value == 0
  {
    hide LShr;
    ShiftByZero(x);
  }

  // A numerator times the negated reciprocal of the determinant, at the wanted exponent.
  function Ratio(numerator: Scaled, det: Scaled, wanted: Word16): Word16
    requires det.value > 0
  {
    hide NormL, LShr, LMult, DivS;
    DivisionGuard(det);
    var (nume, expNume) := Normalised(numerator);
    var (denom, expDenom) := Normalised(det);
    var inverse := Negate(DivS(16384, denom));
    var shift := Sub(Add(expNume, Sub(29, expDenom)), wanted);
    ExtractH(LShr(LMult(nume, inverse), shift))
  }

  // Twice c2 * c1 less c3 * c4, and twice c0 * c3 less c1 * c4.
  function PitchNumerator(g: seq<Word16>, e: seq<Word16>): Scaled
    requires |g| == |e| == 5
  {
    Difference(LMult(g[2], g[1]), Add(e[2], e[1]), LMult(g[3], g[4]), Add(Add(e[3], e[4]), 1), 1)
  }

  function CodeNumerator(g: seq<Word16>, e: seq<Word16>): Scaled
    requires |g| == |e| == 5
  {
    Difference(LMult(g[0], g[3]), Add(e[0], e[3]), LMult(g[1], g[4]), Add(Add(e[1], e[4]), 1), 1)
  }

  const GPCLIP2 := 481

  function BestPitchGain(g: seq<Word16>, e: seq<Word16>, tame: bool): Word16
    requires |g| == |e| == 5 && Determinant(g, e).value > 0
  {
    hide Determinant, Ratio, PitchNumerator;
    var best := Ratio(PitchNumerator(g, e), Determinant(g, e), 24);
    if tame && Sub(best, GPCLIP2) > 0 then GPCLIP2 else best
  }

  function BestCodeGain(g: seq<Word16>, e: seq<Word16>): Word16
    requires |g| == |e| == 5 && Determinant(g, e).value > 0
  {
    hide Determinant, Ratio, CodeNumerator;
    Ratio(CodeNumerator(g, e), Determinant(g, e), 17)
  }

  // The first part of Qua_gain; taming clips the pitch gain before the preselection too.
  method UnquantisedGains(g: seq<Word16>, e: seq<Word16>, tame: bool) returns (best0: Word16, best1: Word16)
    requires |g| == |e| == 5 && Determinant(g, e).value > 0
    ensures best0 == BestPitchGain(g, e, tame) && best1 == BestCodeGain(g, e)
    ensures tame ==> best0 <= GPCLIP2
  {
    hide Difference, Ratio;
    best0 := Ratio(Difference(LMult(g[2], g[1]), Add(e[2], e[1]), LMult(g[3], g[4]), Add(Add(e[3], e[4]), 1), 1),
                   Determinant(g, e), 24);
    if tame {
      if Sub(best0, GPCLIP2) > 0 { best0 := GPCLIP2; }
    }
    best1 := Ratio(Difference(LMult(g[0], g[3]), Add(e[0], e[3]), LMult(g[1], g[4]), Add(Add(e[1], e[4]), 1), 1),
                   Determinant(g, e), 17);
  }

  // ----- Alignment of the correlations

  function TermExponents(e: seq<Word16>, q: Word16): (m: seq<Word16>)
    requires |e| == 5
    ensures |m| == 5
  {
    [Add(e[0], 13), Add(e[1], 14), Add(e[2], Sub(Shl(q, 1), 21)), Add(e[3], Sub(q, 3)), Add(e[4], Sub(q, 4))]
  }

  function Least(m: seq<Word16>, n: nat): (r: Word16)
    requires 0 < n <= |m|
    ensures (forall i :: 0 <= i < n ==> r <= m[i]) && exists i :: 0 <= i < n && r == m[i]
  {
    if n == 1 then m[0] else if m[n - 1] < Least(m, n - 1) then m[n - 1] else Least(m, n - 1)
  }

  // All terms shifted right to the least exponent, in split form.
  function Aligned(g: seq<Word16>, e: seq<Word16>, q: Word16): (c: seq<Dpf>)
    requires |g| == |e| == 5
    ensures |c| == 5
  {
    var m := TermExponents(e, q);
    seq(5, i requires 0 <= i < 5 => LExtract(LShr(LDepositH(g[i]), Sub(m[i], Least(m, 5)))))
  }

  method AlignCoefficients(g: seq<Word16>, e: seq<Word16>, q: Word16) returns (coeff: seq<Dpf>)
    requires |g| == |e| == 5
    ensures coeff == Aligned(g, e, q)
  {
    hide TermExponents, LShr, LExtract, Sub;
    var m := TermExponents(e, q);
    var least := m[0];
    for i := 1 to 5
      invariant least == Least(m, i)
    {
      LessBySub(m[i], least);
      if Sub(m[i], least) < 0 {
        least := m[i];
      }
    }
    coeff := [];
    for i := 0 to 5
      invariant |coeff| == i && forall k :: 0 <= k < i ==> coeff[k] == LExtract(LShr(LDepositH(g[k]), Sub(m[k], least)))
    {
      var j := Sub(m[i], least);
      coeff := coeff + [LExtract(LShr(LDepositH(g[i]), j))];
    }
  }

  lemma LessBySub(x: Word16, y: Word16)
    ensures Sub(x, y) < 0 <==> x < y
  {}

  class GainEncoder {
    const past: array<Word16>

    ghost predicate Valid()
      reads this
    {
      past.Length == 4
    }

    constructor ()
      ensures Valid() && fresh(past) && past[..] == InitialEnergies()
    {
      past := new Word16[4](i => MIN_ENERGY);
      new;
      assert past[..] == InitialEnergies();
    }

    /** Qua_gain.  The correlations must have a positive determinant; otherwise its division ends
        the program (DivisionGuard). */
    method QuaGain(code: seq<Word16>, g: seq<Word16>, e: seq<Word16>, tame: bool)
      returns (index: Word16, gains: Gains, ghost i1: nat, ghost i2: nat, ghost cand1: nat, ghost cand2: nat)
      requires Valid() && |g| == |e| == 5 && Determinant(g, e).value > 0
      modifies past
      ensures Valid() && i1 < NCODE1 && i2 < NCODE2 && index == Index(i1, i2)
      ensures IsBestPair(old(past[..]), code, g, e, tame, cand1, cand2, i1, i2)
      ensures tame ==> gains.pit < GP0999
      ensures gains == Reconstructed(old(past[..]), code, i1, i2)
      ensures past[..] == Remembered(old(past[..]), i1, i2)
    {
      hide BestPair, Window, InQ4, FromEnergy, LogEnergy, CodeGain, Factor, PitchOf, Determinant, BestPitchGain,
        BestCodeGain, Preselected, FirstCoordinate, SecondCoordinate, Aligned;
      var p := GainPredict(past, code);
      var best0, best1 := UnquantisedGains(g, e, tame);
      var c1, c2 := GbkPresel(best0, best1, InQ4(p));
      var coeff := AlignCoefficients(g, e, p.exponent);
      var index1, index2 := SearchGains(coeff, p.gcode0, tame, c1, c2);
      BestInWindow(coeff, p.gcode0, tame, c1, c2, index1, index2);
      WindowFound(best0, best1, p, c1, c2);
      gains := Gains(PitchOf(index1, index2), CodeGain(Factor(index1, index2), p));
      ShiftIn(past, LogEnergy(Factor(index1, index2)));
      index := Index(index1, index2);
      i1, i2, cand1, cand2 := index1, index2, c1, c2;
    }
  }

  lemma WindowFound(best0: Word16, best1: Word16, p: Predicted, cand1: nat, cand2: nat)
    requires cand1 == Preselected(SecondCoordinate(best0, best1, InQ4(p)), THR1, InQ4(p), 3, 0)
    requires cand2 == Preselected(FirstCoordinate(best0, best1, InQ4(p)), THR2, InQ4(p), 5, 0)
    requires cand1 + NCAN1 <= NCODE1 && cand2 + NCAN2 <= NCODE2
    ensures Window(best0, best1, p, cand1, cand2)
  {}

  // (i1, i2) is the best pair of the window preselected for these correlations.
  ghost predicate IsBestPair(past: seq<Word16>, code: seq<Word16>, g: seq<Word16>, e: seq<Word16>, tame: bool,
                             cand1: nat, cand2: nat, i1: nat, i2: nat)
    requires |past| == 4 && |g| == |e| == 5
  {
    && Determinant(g, e).value > 0
    && var p := FromEnergy(past, CodeEnergy(code, |code|));
      && Window(BestPitchGain(g, e, tame), BestCodeGain(g, e), p, cand1, cand2)
      && BestPair(Aligned(g, e, p.exponent), p.gcode0, tame, cand1, cand2, i1, i2, cand1 + NCAN1, cand2)
  }

  lemma BestInWindow(coeff: seq<Dpf>, gcode0: Word16, tame: bool, cand1: nat, cand2: nat, i1: nat, i2: nat)
    requires |coeff| == 5 && cand1 + NCAN1 <= NCODE1 && cand2 + NCAN2 <= NCODE2
    requires BestPair(coeff, gcode0, tame, cand1, cand2, i1, i2, cand1 + NCAN1, cand2)
    ensures i1 < NCODE1 && i2 < NCODE2 && (tame ==> PitchOf(i1, i2) < GP0999)
  {}

  function InitialEnergies(): (p: seq<Word16>)
    ensures |p| == 4
  {
    [MIN_ENERGY, MIN_ENERGY, MIN_ENERGY, MIN_ENERGY]
  }

  // ----- The decoder

  class GainDecoder {
    const past: array<Word16>

    ghost predicate Valid()
      reads this
    {
      past.Length == 4
    }

    constructor ()
      ensures Valid() && fresh(past) && past[..] == InitialEnergies()
    {
      past := new Word16[4](i => MIN_ENERGY);
      new;
      assert past[..] == InitialEnergies();
    }

    /** Dec_gain */
    method DecGain(index: Word16, code: seq<Word16>, bfi: bool, last: Gains) returns (gains: Gains)
      requires Valid() && 0 <= index < 128
      modifies past
      ensures Valid()
      ensures gains == if bfi then Concealed(last) else Reconstructed(old(past[..]), code, First(index), Second(index))
      ensures past[..] == if bfi then Shifted(old(past[..]), Attenuated(old(past[..])))
                          else Remembered(old(past[..]), First(index), Second(index))
    {
      hide FromEnergy, LogEnergy, CodeGain, Factor, PitchOf, Mult, First, Second;
      if bfi {
        var pit := Mult(last.pit, 29491);
        Positive(pit);
        if Sub(pit, 29491) > 0 {
          pit := 29491;
        }
        gains := Gains(pit, Mult(last.cod, 32111));
        GainUpdateErasure(past);
      } else {
        var i1, i2 := First(index), Second(index);
        var p := GainPredict(past, code);
        gains := Gains(PitchOf(i1, i2), CodeGain(Factor(i1, i2), p));
        ShiftIn(past, LogEnergy(Factor(i1, i2)));
      }
    }
  }

  lemma Positive(pit: Word16)
    ensures Sub(pit, 29491) > 0 <==> pit > 29491
  {}

  // ----- Long erasures

  function ErasedRun(past: seq<Word16>, n: nat): (p: seq<Word16>)
    requires |past| == 4
    ensures |p| == 4
  {
    if n == 0 then past else var p := ErasedRun(past, n - 1); Shifted(p, Attenuated(p))
  }

  // Every energy lies between the floor (unless it is an old one) and the limit.
  predicate Within(p: seq<Word16>, limit: int, floored: bool)
    requires |p| == 4
  {
    forall i :: 0 <= i < 4 ==> p[i] <= limit && (floored ==> MIN_ENERGY <= p[i])
  }

  lemma AttenuatedRange(p: seq<Word16>, limit: int)
    requires |p| == 4 && Within(p, limit, false)
    ensures MIN_ENERGY <= Attenuated(p) <= Max(MIN_ENERGY, limit - 4096)
  {}

  lemma FourErased(p: seq<Word16>, limit: int)
    requires |p| == 4 && Within(p, limit, false) && limit >= MIN_ENERGY
    ensures Within(ErasedRun(p, 4), Max(MIN_ENERGY, limit - 4096), true)
  {
    hide Attenuated;
    var p1, p2, p3 := ErasedRun(p, 1), ErasedRun(p, 2), ErasedRun(p, 3);
    assert p1 == Shifted(ErasedRun(p, 0), Attenuated(p));
    assert p2 == Shifted(p1, Attenuated(p1)) && p3 == Shifted(p2, Attenuated(p2));
    assert ErasedRun(p, 4) == Shifted(p3, Attenuated(p3));
    AttenuatedRange(p, limit);
    AttenuatedRange(p1, limit);
    AttenuatedRange(p2, limit);
    AttenuatedRange(p3, limit);
    assert p1 == [Attenuated(p), p[0], p[1], p[2]];
    assert p2 == [Attenuated(p1), Attenuated(p), p[0], p[1]];
    assert p3 == [Attenuated(p2), Attenuated(p1), Attenuated(p), p[0]];
    assert ErasedRun(p, 4) == [Attenuated(p3), Attenuated(p2), Attenuated(p1), Attenuated(p)];
  }

  lemma {:induction false} RunInParts(p: seq<Word16>, m: nat, n: nat)
    requires |p| == 4
    ensures ErasedRun(ErasedRun(p, m), n) == ErasedRun(p, m + n)
  {
    hide Attenuated;
    if n > 0 { RunInParts(p, m, n - 1); }
  }

  lemma {:induction false} EnergiesFall(p: seq<Word16>, k: nat)
    requires |p| == 4 && k >= 1
    ensures Within(ErasedRun(p, 4 * k), Max(MIN_ENERGY, MAX_16 - 4096 * k), true)
  {
    hide Attenuated, ErasedRun;
    if k == 1 {
      FourErased(p, MAX_16);
    } else {
      EnergiesFall(p, k - 1);
      FourErased(ErasedRun(p, 4 * (k - 1)), Max(MIN_ENERGY, MAX_16 - 4096 * (k - 1)));
      RunInParts(p, 4 * (k - 1), 4);
    }
  }

  /** Whatever the memory holds, 48 erased subframes in a row return it to its reset value,
      and there it stays. */
  lemma {:induction false} LongErasureResets(p: seq<Word16>, n: nat)
    requires |p| == 4 && n >= 48
    ensures ErasedRun(p, n) == InitialEnergies()
  {
    if n == 48 {
      hide Attenuated, ErasedRun;
      EnergiesFall(p, 12);
      OnlyTheFloor(ErasedRun(p, 4 * 12));
    } else {
      LongErasureResets(p, n - 1);
      assert Attenuated(InitialEnergies()) == MIN_ENERGY;
    }
  }

  lemma OnlyTheFloor(p: seq<Word16>)
    requires |p| == 4 && Within(p, MIN_ENERGY, true)
    ensures p == InitialEnergies()
  {}
}
