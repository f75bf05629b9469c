/** The gain predictor (GAINPRED.C) against the formula it stands for: mean energy less the energy of
    the codeword, plus the weighted energies of the last four subframes, as a power of two. */
module GainPrediction {
  import opened BasicOp
  import opened Oper32b
  import opened Gain
  import opened GainPower

  // ----- The level

  // 127.298 dB in Q14.
  const MEAN := 2085632

  // The prediction from the four energies, newest first, in Q23.
  function Prediction(past: seq<Word16>): int
    requires |past| == 4
  {
    5571 * (past[0] as int) + 4751 * (past[1] as int) + 2785 * (past[2] as int) + 1556 * (past[3] as int)
  }

  // The accumulator before the prediction is added, in Q24.
  function Start(energy: Word32): Word32 { LShl(LMac(Mpy32By16(Log2(energy), -24660), MEAN / 64, 32), 10) }

  // No step of the prediction leaves 32 bits.
  predicate Unsaturated(past: seq<Word16>, start: Word32)
    requires |past| == 4
  {
    var s1 := start as int + 2 * (5571 * (past[0] as int));
    var s2 := s1 + 2 * (4751 * (past[1] as int));
    var s3 := s2 + 2 * (2785 * (past[2] as int));
    var s4 := s3 + 2 * (1556 * (past[3] as int));
    MIN_32 <= s1 <= MAX_32 && MIN_32 <= s2 <= MAX_32 && MIN_32 <= s3 <= MAX_32 && MIN_32 <= s4 <= MAX_32
  }

  lemma LogValue(energy: Word32)
    ensures 0 <= Log2(energy).Value() < 31 * 0x1_0000 && 0 <= Log2(energy).lo
  {
    hide Log2;
    var r := Log2(energy);
  }

  /** The start is never saturated: the mean less 3.0103 times the logarithm, to two units of Q14. */
  lemma StartNear(energy: Word32)
    ensures var v := Log2(energy).Value();
      -0x400_0000 < 0x8000 * (Start(energy) as int) - 1024 * (0x8000 * MEAN - 24660 * v) <= 0
    ensures 0 <= Start(energy)
  {
    LogValue(energy);
    StartOf(Log2(energy));
  }

  lemma StartOf(d: Dpf)
    requires 0 <= d.Value() < 31 * 0x1_0000 && 0 <= d.lo
    ensures var s: int := LShl(LMac(Mpy32By16(d, -24660), MEAN / 64, 32), 10);
      -0x400_0000 < 0x8000 * s - 1024 * (0x8000 * MEAN - 24660 * d.Value()) <= 0 <= s
  {
    hide Mpy32By16, LShl, LMac;
    Mpy32By16Error(d, -24660);
    AddsMean(Mpy32By16(d, -24660));
    Shift10(Mpy32By16(d, -24660) + MEAN);
  }

  lemma AddsMean(m: Word32)
    requires -MEAN <= m <= 0
    ensures LMac(m, MEAN / 64, 32) as int == m + MEAN
  {}

  lemma Shift10(x: Word32)
    requires 0 <= x <= MEAN
    ensures LShl(x, 10) as int == 1024 * x
  {
    assert TwoTo(10) == 1024;
  }

  lemma CorrelatedExactly(start: Word32, past: seq<Word16>)
    requires |past| == 4 && Unsaturated(past, start)
    ensures Correlated(start, past, 4) as int == start + 2 * Prediction(past)
  {
    hide LMac;
    OneStep(start, start, past, 0, 5571);
    var s1 := Correlated(start, past, 1);
    OneStep(start, s1, past, 1, 4751);
    var s2 := Correlated(start, past, 2);
    OneStep(start, s2, past, 2, 2785);
    var s3 := Correlated(start, past, 3);
    OneStep(start, s3, past, 3, 1556);
  }

  lemma OneStep(start: Word32, acc: Word32, past: seq<Word16>, n: nat, w: Word16)
    requires |past| == 4 && n < 4 && acc == Correlated(start, past, n) && w == [5571, 4751, 2785, 1556][n]
    requires MIN_32 <= acc + 2 * (w * past[n]) <= MAX_32
    ensures Correlated(start, past, n + 1) as int == acc + 2 * (w * past[n])
  {
    MacOne(acc, w, past[n]);
    hide LMac;
  }

  lemma MacOne(acc: Word32, w: Word16, x: Word16)
    requires 0 <= w && MIN_32 <= acc + 2 * Product(w, x) <= MAX_32
    ensures LMac(acc, w, x) as int == acc + 2 * Product(w, x)
  {
    ProductBound(w, x);
  }

  // The level in Q8 that is raised to a power.
  function Level(past: seq<Word16>, energy: Word32): Word16
    requires |past| == 4
  {
    ExtractH(Correlated(Start(energy), past, 4))
  }

  lemma FromLevel(past: seq<Word16>, energy: Word32)
    requires |past| == 4
    ensures FromEnergy(past, energy) == FromLogarithm(Level(past, energy))
  {
    hide Log2, Mpy32By16, LMac, LShr, FromLogarithm, Correlated;
  }

  // The exact level in 2^39, for the logarithm v of the energy of the codeword in Q16.
  function Ideal(past: seq<Word16>, v: int): int
    requires |past| == 4
  {
    1024 * (0x8000 * MEAN - 24660 * v) + 0x8000 * (2 * Prediction(past))
  }

  /** The level is the mean energy less 3.0103 times the logarithm of the energy of the codeword, plus
      the four energies with their weights, the newest with the largest, rounded down in Q8 but for
      two units of Q14. */
  lemma LevelNear(past: seq<Word16>, energy: Word32)
    requires |past| == 4 && Unsaturated(past, Start(energy))
    ensures -0x8000_0000 - 0x400_0000
      < 0x8000_0000 * (Level(past, energy) as int) - Ideal(past, Log2(energy).Value()) <= 0
  {
    hide Log2, Start, Correlated, Prediction, Unsaturated;
    StartNear(energy);
    CorrelatedExactly(Start(energy), past);
    DivBounds(Correlated(Start(energy), past, 4), 0x1_0000);
    LevelOf(Level(past, energy), Start(energy), Prediction(past), Log2(energy).Value());
  }

  lemma LevelOf(level: int, start: int, p: int, v: int)
    requires 0x1_0000 * level <= start + 2 * p < 0x1_0000 * level + 0x1_0000
    requires -0x400_0000 < 0x8000 * start - 1024 * (0x8000 * MEAN - 24660 * v) <= 0
    ensures -0x8000_0000 - 0x400_0000
      < 0x8000_0000 * level - (1024 * (0x8000 * MEAN - 24660 * v) + 0x8000 * (2 * p)) <= 0
  {}

  /** For a codeword of energy 2^28 at least, a quarter of four unit pulses, no memory saturates. */
  lemma LoudIsUnsaturated(past: seq<Word16>, energy: Word32)
    requires |past| == 4 && energy >= 0x1000_0000
    ensures Unsaturated(past, Start(energy))
  {
    StartNear(energy);
    TopBit(energy);
    LogValue(energy);
    hide Log2, Start;
  }

  lemma TopBit(energy: Word32)
    requires energy >= 0x1000_0000
    ensures Log2(energy).Value() >= 28 * 0x1_0000
  {
    NormalizedShift(energy);
    hide Log2;
    var n := NormL(energy);
    hide NormL;
    if n >= 3 {
      TwoToMono(3, n);
      assert TwoTo(3) == 8;
      MulMono(8, TwoTo(n), energy);
    }
  }

  // ----- The gain

  /** Gain_predict as one bound: with k the floor of 32 times the logarithm of the energy of the
      codeword, the 32nd power of the gain lies between the two powers of two that the mean, k and the
      prediction give, a few 32nds of an octave apart. */
  lemma GainBounded(past: seq<Word16>, energy: Word32, k: nat)
    requires |past| == 4 && energy > 0 && Unsaturated(past, Start(energy))
    requires TwoTo(k) <= P32(energy) < TwoTo(k + 1)
    ensures var p := FromEnergy(past, energy);
      var low := Octaves(Ideal(past, 0x800 * (k + 3)) - 0x8400_0000) + 32 * p.exponent;
      var high := Octaves(Ideal(past, 0x800 * (k - 3))) + 32 * p.exponent;
      && 0 <= low <= high && TwoTo(low) <= P32(p.gcode0 + 1) && P32(p.gcode0 - 1) <= TwoTo(high + 1)
  {
    hide P32, TwoTo, Log2, Start, Unsaturated, Prediction, FromLogarithm, GainOctave, Level;
    LogarithmOf(energy, k);
    LevelNear(past, energy);
    FromLevel(past, energy);
    var level := Level(past, energy);
    GainNear(level);
    var v := Log2(energy).Value();
    var p := FromLogarithm(level);
    OctavesOf(level, Ideal(past, 0x800 * (k + 3)) - 0x8400_0000, Ideal(past, 0x800 * (k - 3)));
    var e := GainOctave(level) + 32 * p.exponent;
    var low := Octaves(Ideal(past, 0x800 * (k + 3)) - 0x8400_0000) + 32 * p.exponent;
    var high := Octaves(Ideal(past, 0x800 * (k - 3))) + 32 * p.exponent;
    TwoToMono(low, e);
    TwoToMono(e + 1, high + 1);
  }

  // 32 times the binary logarithm of the gain of a level in 2^39, rounded down.
  function Octaves(x: int): int { (10878 * x) / 0x4_0000_0000_0000 }

  lemma OctavesOf(level: Word16, low: int, high: int)
    requires low <= 0x8000_0000 * (level as int) <= high && high - low <= 0x60_0000_0000
    ensures Octaves(low) <= GainOctave(level) <= Octaves(high)
    ensures Octaves(low) >= GainOctave(level) - 5
  {
    var d := 0x4_0000_0000_0000;
    DivMono(10878 * low, 10878 * (0x8000_0000 * (level as int)), d);
    DivMono(10878 * (0x8000_0000 * (level as int)), 10878 * high, d);
    var q := GainOctave(level);
    DivBounds(10878 * level, 0x8_0000);
    DivUnique(10878 * (0x8000_0000 * (level as int)), d, q);
    DivBounds(10878 * low, d);
  }

  // The logarithm by table against the exact one.
  lemma LogarithmOf(energy: Word32, k: nat)
    requires energy > 0 && TwoTo(k) <= P32(energy) < TwoTo(k + 1)
    ensures 0x800 * (k - 3) <= Log2(energy).Value() < 0x800 * (k + 3)
  {
    hide P32, TwoTo, Log2;
    LogNear(energy);
    var r := Log2(energy);
    var e := 32 * r.hi + r.lo / 1024;
    QuadrupleTwoTo(k + 1);
    if e >= k + 3 { TwoToMono(k + 3, e); }
    if e + 3 < k {
      TwoToMono(e + 4, k);
      PowerBelow(e + 3);
    }
  }

  lemma QuadrupleTwoTo(k: nat)
    ensures TwoTo(k + 2) == 4 * TwoTo(k)
  {
    assert TwoTo(k + 2) == 2 * TwoTo(k + 1);
  }

  lemma PowerBelow(k: nat)
    ensures TwoTo(k) < TwoTo(k + 1)
  {}

  // ----- The energy that is remembered

  // The logarithm of a factor in Q13, from its logarithm in Q16.
  function Excess(v: int): int { v - 13 * 0x1_0000 }

  /** Gain_update: for factors between 1/16 and 16 the energy remembered is 20 log10 of the factor in
      Q10, rounded down twice. */
  lemma UpdateNear(factor: Word32)
    requires 512 <= factor < 0x2_0000
    ensures -24660 * 8 - 0x4_0000
      < 0x4_0000 * (LogEnergy(factor) as int) - 24660 * Excess(Log2(factor).Value()) <= 0
  {
    TopBits(factor);
    hide Log2;
    var d := Log2(factor);
    var a := Excess(d.Value());
    Joined(d);
    Shift13(a);
    hide LShr, LComp;
    var t: Word16 := ExtractH(8192 * a);
    DivUnique(8192 * a, 0x1_0000, a / 8);
    TimesSixDb(t);
  }

  lemma TimesSixDb(t: Word16)
    ensures -0x8000 < 0x8000 * (Mult(t, 24660) as int) - 24660 * t <= 0
  {
    DivBounds(24660 * t, 0x8000);
  }

  lemma Joined(d: Dpf)
    requires 0 <= d.lo && 9 <= d.hi <= 16
    ensures LComp(Dpf(Sub(d.hi, 13), d.lo)) as int == Excess(d.Value())
  {}

  lemma Shift13(a: Word32)
    requires -0x4_0000 <= a < 0x4_0000
    ensures LShl(a, 13) as int == 8192 * a
  {
    assert TwoTo(6) == 64;
    TwoToSum(6, 7);
    assert TwoTo(7) == 128;
  }

  lemma TopBits(factor: Word32)
    requires 512 <= factor < 0x2_0000
    ensures 9 <= Log2(factor).hi <= 16 && 0 <= Log2(factor).lo
    ensures -0x4_0000 <= Excess(Log2(factor).Value()) < 0x4_0000
  {
    NormalizedShift(factor);
    TwentyOne();
    hide Log2, NormL, TwoTo;
    var n := NormL(factor);
    if n <= 13 {
      TwoToMono(n, 13);
      Below(factor, 0x2_0000, TwoTo(n), 8192);
    }
    if n >= 22 {
      TwoToMono(22, n);
      Below(512, factor, 0x40_0000, TwoTo(n));
    }
  }

  lemma Below(x: int, y: int, c: int, d: int)
    requires 0 <= x <= y && 0 <= c <= d
    ensures x * c <= y * d
  {
    MulMono(x, y, c);
    MulMono(c, d, y);
  }

  lemma TwentyOne()
    ensures TwoTo(13) == 8192 && TwoTo(22) == 0x40_0000
  {
    assert TwoTo(6) == 64 && TwoTo(7) == 128;
    TwoToSum(6, 7);
    assert TwoTo(9) == 512;
    TwoToSum(13, 9);
  }

  /** Every pair of gain codebook entries has such a factor. */
  lemma FactorInRange(i1: nat, i2: nat)
    requires i1 < NCODE1 && i2 < NCODE2
    ensures 512 <= Factor(i1, i2) < 0x2_0000
    ensures Factor(i1, i2) as int == GBK1_CODE[i1] as int + GBK2_CODE[i2] as int
  {}

  /** The energy of the codeword is twice the sum of its squares while that fits. */
  lemma {:induction false} EnergyIsSquares(code: seq<Word16>, n: nat)
    requires n <= |code| && 2 * Squares(code, n) <= MAX_32
    ensures CodeEnergy(code, n) as int == 2 * Squares(code, n)
  {
    if n > 0 {
      SquareGrows(code, n - 1);
      EnergyIsSquares(code, n - 1);
      ProductBound(code[n - 1], code[n - 1]);
    }
  }

  function Squares(code: seq<Word16>, n: nat): (s: nat)
    requires n <= |code|
  {
    SquareSign(if n == 0 then 0 else code[n - 1]);
    if n == 0 then 0 else Squares(code, n - 1) + Product(code[n - 1], code[n - 1])
  }

  lemma SquareSign(x: int)
    ensures Product(x, x) >= 0
  {
    if x >= 0 { MulMono(0, x, x); } else { MulMono(0, -x, -x); assert -x * -x == x * x; }
  }

  lemma SquareGrows(code: seq<Word16>, n: nat)
    requires n < |code|
    ensures Squares(code, n) <= Squares(code, n + 1)
  {
    SquareSign(code[n]);
  }
}
