/** Gain quantisation and decoding (QUA_GAIN.C, DEC_GAIN.C) against exact formulas. */
module GainLaw {
  import opened BasicOp
  import opened Oper32b
  import opened Gain
  import opened GainPrecision

  // ----- Reconstruction

  /** The fixed-codebook gain is factor * gcode0 / 2^(12 + exponent), that is the factor in Q13 times the
      predicted gain in Q1, rounded down, with the lowest bit of the factor dropped. */
  lemma CodeGainNear(factor: Word32, p: Predicted)
    requires 0 <= factor <= 0xffff && 0 <= p.gcode0 && -1000 <= p.exponent <= 1000
    requires p.exponent >= 4 || MIN_32 <= 2 * ((factor / 2) * p.gcode0) * TwoTo(4 - p.exponent) <= MAX_32
    ensures -1.0 < CodeGain(factor, p) as real
                   - Times((2 * ((factor / 2) * p.gcode0)) as real, Pow2(-12 - p.exponent)) <= 0.0
  {
    hide Times, Pow2, TwoTo, LMult;
    var f: Word16 := factor / 2;
    HalfFactor(factor);
    Doubled(f, p.gcode0);
    UpperFloor(LMult(f, p.gcode0), p.exponent as int - 4);
    hide LShr;
  }

  lemma HalfFactor(factor: Word32)
    requires 0 <= factor <= 0xffff
    ensures ExtractL(LShr(factor, 1)) as int == factor / 2
  {
    assert TwoTo(1) == 2;
    assert LShr(factor, 1) == factor / 2;
    Wrap16Unique(factor / 2, factor / 2, 0);
  }

  lemma Doubled(x: Word16, y: Word16)
    requires 0 <= x && 0 <= y
    ensures LMult(x, y) as int == 2 * ((x as int) * (y as int))
  {
    ProductBound(x, y);
    MulMono(0, x, y);
  }

  /** In an erased frame the pitch gain is 29491/32768 and the code gain 32111/32768 of the last ones,
      rounded down; the limit of 29491 is never reached. */
  lemma ConcealedGains(g: Gains)
    ensures Concealed(g).pit as int == (29491 * (g.pit as int)) / 0x8000 && Concealed(g).pit < 29491
    ensures Concealed(g).cod as int == (32111 * (g.cod as int)) / 0x8000
  {
    MultPositive(g.pit, 29491);
    MultPositive(g.cod, 32111);
    DivBounds(29491 * (g.pit as int), 0x8000);
  }

  lemma MultPositive(x: Word16, w: Word16)
    requires w > 0
    ensures Mult(x, w) as int == ((w as int) * (x as int)) / 0x8000
  {
    var p := (w as int) * (x as int);
    ProductBound(x, w);
    DivBounds(p, 0x8000);
  }

  // ----- The error of a pair

  // The pitch gain in Q14 and the code gain of a pair.
  function PairPitch(i1: nat, i2: nat): int
    requires i1 < NCODE1 && i2 < NCODE2
  {
    GBK1_PITCH[i1] as int + GBK2_PITCH[i2] as int
  }

  function PairCode(gcode0: Word16, i1: nat, i2: nat): int
    requires i1 < NCODE1 && i2 < NCODE2
  {
    ((gcode0 as int) * ((GBK1_CODE[i1] as int + GBK2_CODE[i2] as int) / 2)) / 0x8000
  }

  lemma PairValues(gcode0: Word16, i1: nat, i2: nat)
    requires i1 < NCODE1 && i2 < NCODE2
    ensures 0 <= PairPitch(i1, i2) <= MAX_16 && PitchOf(i1, i2) as int == PairPitch(i1, i2)
    ensures MIN_16 <= PairCode(gcode0, i1, i2) <= MAX_16
    ensures Mult(gcode0, ExtractL(LShr(Factor(i1, i2), 1))) as int == PairCode(gcode0, i1, i2)
  {
    Entries(i1, i2);
    hide GBK1_PITCH, GBK2_PITCH, GBK1_CODE, GBK2_CODE, LShr, ExtractL;
    var f := GBK1_CODE[i1] as int + GBK2_CODE[i2] as int;
    HalfFactor(f);
    MultPositive(gcode0, f / 2);
    ProductBound(gcode0, f / 2);
    assert (f / 2) * (gcode0 as int) == (gcode0 as int) * (f / 2);
  }

  lemma Entries(i1: nat, i2: nat)
    requires i1 < NCODE1 && i2 < NCODE2
    ensures |GBK1_PITCH| == |GBK1_CODE| == NCODE1 && |GBK2_PITCH| == |GBK2_CODE| == NCODE2
    ensures 0 <= GBK1_PITCH[i1] <= 3242 && 0 <= GBK2_PITCH[i2] <= 18973
    ensures 1516 <= GBK1_CODE[i1] <= 27162 && 0 <= GBK2_CODE[i2] <= 14276
  {}

  // The exact terms of the error in 2^15: c0 p^2 + c1 p + c2 c^2 + c3 c + c4 p c, with products in Q15.
  function Term(coeff: seq<Dpf>, p: int, c: int, k: nat): int
    requires |coeff| == 5 && k < 5
  {
    coeff[k].Value() * (if k == 0 then (p * p) / 0x8000 else if k == 1 then p
                        else if k == 2 then (c * c) / 0x8000 else if k == 3 then c else (c * p) / 0x8000)
  }

  function Terms(coeff: seq<Dpf>, p: int, c: int, n: nat): int
    requires |coeff| == 5 && n <= 5
  {
    if n == 0 then 0 else Terms(coeff, p, c, n - 1) + Term(coeff, p, c, n - 1)
  }

  // The partial sums stay clear of the limits of 32 bits.
  predicate TermsFit(coeff: seq<Dpf>, p: int, c: int)
    requires |coeff| == 5
  {
    && PartFits(Terms(coeff, p, c, 1)) && PartFits(Terms(coeff, p, c, 2)) && PartFits(Terms(coeff, p, c, 3))
    && PartFits(Terms(coeff, p, c, 4)) && PartFits(Terms(coeff, p, c, 5))
  }

  predicate PartFits(x: int) { -0x8000 * 0x7fff_fff0 <= x <= 0x8000 * 0x7fff_fff0 }

  /** The error that the search minimises is the quadratic form of the two gains in the five
      correlations, at most ten units below it and never above. */
  lemma DistortionNear(coeff: seq<Dpf>, gcode0: Word16, i1: nat, i2: nat)
    requires |coeff| == 5 && i1 < NCODE1 && i2 < NCODE2 && forall k :: 0 <= k < 5 ==> coeff[k].lo >= 0
    requires TermsFit(coeff, PairPitch(i1, i2), PairCode(gcode0, i1, i2)) && PairCode(gcode0, i1, i2) > MIN_16
    ensures -10 * 0x8000 < 0x8000 * (Distortion(coeff, gcode0, i1, i2) as int)
                            - Terms(coeff, PairPitch(i1, i2), PairCode(gcode0, i1, i2), 5) <= 0
  {
    hide PairPitch, PairCode, Mpy32By16, PitchOf, Mult, ExtractL, LShr, Factor, Term;
    PairValues(gcode0, i1, i2);
    var p: Word16, c: Word16 := PairPitch(i1, i2), PairCode(gcode0, i1, i2);
    SquareWord(p, p);
    SquareWord(c, c);
    SquareWord(c, p);
    TermNear(coeff, p, c, 0, Mult(p, p));
    TermNear(coeff, p, c, 1, p);
    TermNear(coeff, p, c, 2, Mult(c, c));
    TermNear(coeff, p, c, 3, c);
    TermNear(coeff, p, c, 4, Mult(c, p));
    FiveTerms(coeff, p, c);
    SumOfFive(coeff, gcode0, i1, i2, p, c);
  }

  lemma SquareWord(x: Word16, y: Word16)
    requires y > MIN_16
    ensures Mult(x, y) as int == ((x as int) * (y as int)) / 0x8000 && Mult(x, y) > MIN_16
  {
    var q := (x as int) * (y as int);
    ProductBound(x, y);
    MulMono(Abs(x), 0x8000, Abs(y));
    MulMono(Abs(y), 0x7fff, 0x8000);
    assert Abs(x) * Abs(y) == Abs(q);
    DivBounds(q, 0x8000);
  }

  // A term is less than two units below its exact value.
  lemma TermNear(coeff: seq<Dpf>, p: Word16, c: Word16, k: nat, n: Word16)
    requires |coeff| == 5 && k < 5 && coeff[k].lo >= 0 && n > MIN_16
    requires n as int == if k == 0 then ((p as int) * (p as int)) / 0x8000 else if k == 1 then p as int
                         else if k == 2 then ((c as int) * (c as int)) / 0x8000 else if k == 3 then c as int
                         else ((c as int) * (p as int)) / 0x8000
    ensures -2 * 0x8000 < 0x8000 * (Mpy32By16(coeff[k], n) as int) - Term(coeff, p, c, k) <= 0
  {
    hide Mpy32By16;
    Mpy32By16Error(coeff[k], n);
  }

  lemma FiveTerms(coeff: seq<Dpf>, p: int, c: int)
    requires |coeff| == 5
    ensures Terms(coeff, p, c, 1) == Term(coeff, p, c, 0)
    ensures Terms(coeff, p, c, 2) == Terms(coeff, p, c, 1) + Term(coeff, p, c, 1)
    ensures Terms(coeff, p, c, 3) == Terms(coeff, p, c, 2) + Term(coeff, p, c, 2)
    ensures Terms(coeff, p, c, 4) == Terms(coeff, p, c, 3) + Term(coeff, p, c, 3)
    ensures Terms(coeff, p, c, 5) == Terms(coeff, p, c, 4) + Term(coeff, p, c, 4)
  {
    hide Term;
    assert Terms(coeff, p, c, 0) == 0;
  }

  lemma SumOfFive(coeff: seq<Dpf>, gcode0: Word16, i1: nat, i2: nat, p: Word16, c: Word16)
    requires |coeff| == 5 && i1 < NCODE1 && i2 < NCODE2 && p == PitchOf(i1, i2)
    requires c == Mult(gcode0, ExtractL(LShr(Factor(i1, i2), 1)))
    requires var m0, m1, m2 := Mpy32By16(coeff[0], Mult(p, p)) as int, Mpy32By16(coeff[1], p) as int,
                               Mpy32By16(coeff[2], Mult(c, c)) as int;
      var m3 := Mpy32By16(coeff[3], c) as int;
      && MIN_32 <= m0 + m1 <= MAX_32 && MIN_32 <= m0 + m1 + m2 <= MAX_32 && MIN_32 <= m0 + m1 + m2 + m3 <= MAX_32
      && MIN_32 <= m0 + m1 + m2 + m3 + Mpy32By16(coeff[4], Mult(c, p)) <= MAX_32
    ensures Distortion(coeff, gcode0, i1, i2) as int
         == Mpy32By16(coeff[0], Mult(p, p)) as int + Mpy32By16(coeff[1], p) + Mpy32By16(coeff[2], Mult(c, c))
          + Mpy32By16(coeff[3], c) + Mpy32By16(coeff[4], Mult(c, p))
  {
    hide Mpy32By16, PitchOf, Mult, ExtractL, LShr, Factor;
  }

  // ----- The preselection

  // The gain x lies beyond threshold k of the codebook.
  predicate Beyond(x: Word32, thr: seq<Word16>, gcode0: Word16, shift: nat, k: nat)
    requires k < |thr|
  {
    var limit := (2 * ((thr[k] as int) * (gcode0 as int))) / TwoTo(shift);
    if gcode0 > 0 then x as int > limit else (x as int) < limit
  }

  /** The window starts after the longest run of thresholds that the coordinate lies beyond. */
  lemma {:induction false} WindowStart(x: Word32, thr: seq<Word16>, gcode0: Word16, shift: nat, k: nat)
    requires k <= |thr| && forall i :: 0 <= i < |thr| ==> thr[i] > MIN_16
    ensures var c := Preselected(x, thr, gcode0, shift, k);
      && (forall i :: k <= i < c ==> Beyond(x, thr, gcode0, shift, i))
      && (c < |thr| ==> !Beyond(x, thr, gcode0, shift, c))
    decreases |thr| - k
  {
    hide LShr, LSub, LMult, Beyond;
    if k < |thr| {
      WindowStart(x, thr, gcode0, shift, k + 1);
      BeyondTest(x, thr, gcode0, shift, k);
    }
  }

  lemma BeyondTest(x: Word32, thr: seq<Word16>, gcode0: Word16, shift: nat, k: nat)
    requires k < |thr| && thr[k] > MIN_16
    ensures var d := LSub(x, LShr(LMult(thr[k], gcode0), shift));
      Beyond(x, thr, gcode0, shift, k) <==> if gcode0 > 0 then d > 0 else d < 0
  {
    ProductBound(thr[k], gcode0);
    assert LMult(thr[k], gcode0) as int == 2 * ((thr[k] as int) * (gcode0 as int));
    hide LMult, TwoTo;
  }

  /** The coordinate compared with the second codebook's thresholds: the code gain less a linear function
      of the pitch gain times the predicted gain, divided by a negative constant; exact but for the two
      halves it takes. */
  lemma FirstCoordinateIs(best0: Word16, best1: Word16, gcode0: Word16)
    requires IsWord32(63762 * (best0 as int) + 55633) && IsWord32(128 * (best1 as int))
    requires var h := (63762 * (best0 as int) + 55633) / 0x1_0000;
      var acc := 128 * (best1 as int) - 2 * (h * (gcode0 as int));
      h > MIN_16 && IsWord32(acc) && IsWord32(4 * acc)
    ensures var h := (63762 * (best0 as int) + 55633) / 0x1_0000;
      var acc := 128 * (best1 as int) - 2 * (h * (gcode0 as int));
      FirstCoordinate(best0, best1, gcode0) as int == -34206 * ((4 * acc) / 0x1_0000)
  {
    Powers();
    assert LShr(1822990272, 15) == 55633;
    var h: Word16 := (63762 * (best0 as int) + 55633) / 0x1_0000;
    ProductBound(h, gcode0);
    var acc := 128 * (best1 as int) - 2 * ((h as int) * (gcode0 as int));
    hide TwoTo;
    assert LMult(31881, best0) as int == 63762 * (best0 as int);
    assert LShl(best1, 7) as int == 128 * (best1 as int);
    assert LMult(h, gcode0) as int == 2 * ((h as int) * (gcode0 as int));
    assert LShl(acc, 2) as int == 4 * acc;
    LastProduct((4 * acc) / 0x1_0000);
    hide LShr, LMult;
  }

  lemma LastProduct(x: Word16)
    ensures LMult(x, INV_COEF) as int == -34206 * x
  {}

  lemma Powers()
    ensures TwoTo(2) == 4 && TwoTo(3) == 8 && TwoTo(7) == 128 && TwoTo(10) == 1024 && TwoTo(15) == 0x8000
  {
    assert TwoTo(3) == 8;
    assert TwoTo(7) == 128;
    assert TwoTo(10) == 1024;
    TwoToWord();
  }

  /** And the one compared with the first codebook's. */
  lemma SecondCoordinateIs(best0: Word16, best1: Word16, gcode0: Word16)
    requires IsWord32(63762 * (best0 as int) - 1690642)
    requires var h := (63762 * (best0 as int) - 1690642) / 0x1_0000;
      var a := (h * (gcode0 as int)) / 0x8000;
      var acc := 63096 * a - (63762 * (best1 as int)) / 8;
      h > MIN_16 && IsWord32(acc) && IsWord32(4 * acc)
    ensures var h := (63762 * (best0 as int) - 1690642) / 0x1_0000;
      var a := (h * (gcode0 as int)) / 0x8000;
      var acc := 63096 * a - (63762 * (best1 as int)) / 8;
      SecondCoordinate(best0, best1, gcode0) as int == -34206 * ((4 * acc) / 0x1_0000)
  {
    Powers();
    assert LShr(1731217536, 10) == 1690642;
    var h: Word16 := (63762 * (best0 as int) - 1690642) / 0x1_0000;
    ProductBound(h, gcode0);
    DivBounds((h as int) * (gcode0 as int), 0x8000);
    var a: Word16 := ((h as int) * (gcode0 as int)) / 0x8000;
    var acc := 63096 * (a as int) - (63762 * (best1 as int)) / 8;
    hide TwoTo;
    assert Mult(h, gcode0) == a;
    assert LMult(31881, best0) as int == 63762 * (best0 as int);
    assert LMult(31881, best1) as int == 63762 * (best1 as int);
    assert LShr(LMult(31881, best1), 3) as int == (63762 * (best1 as int)) / 8;
    assert LMult(a, 31548) as int == 63096 * (a as int);
    assert LShl(acc, 2) as int == 4 * acc;
    LastProduct((4 * acc) / 0x1_0000);
    hide LShr, LMult, Mult;
  }

  // ----- Alignment

  /** Correlation k is shifted right by the distance of its exponent from the least of the five, and
      loses its lowest bit: the exponents are those of p^2, p, c^2, c and p c. */
  lemma AlignedTerm(g: seq<Word16>, e: seq<Word16>, q: Word16, k: nat, least: int)
    requires |g| == |e| == 5 && k < 5 && -1000 <= q <= 1000 && forall i :: 0 <= i < 5 ==> -1000 <= e[i] <= 1000
    requires var m := Exponents(e, q); (forall i :: 0 <= i < 5 ==> least <= m[i]) && least in m
    ensures var m := Exponents(e, q);
      var w := (0x1_0000 * (g[k] as int)) / TwoTo(m[k] - least);
      Aligned(g, e, q)[k].Value() == w - w % 2
  {
    ExponentsAre(e, q);
    var m := TermExponents(e, q);
    LeastIs(m, least);
    AlignedAt(g, e, q, k);
    SmallDifference(m[k], Least(m, 5));
    hide TermExponents, Least, Aligned, TwoTo, Sub;
    ShiftedWord(g[k], m[k] as int - least);
  }

  lemma AlignedAt(g: seq<Word16>, e: seq<Word16>, q: Word16, k: nat)
    requires |g| == |e| == 5 && k < 5
    ensures var m := TermExponents(e, q);
      Aligned(g, e, q)[k] == LExtract(LShr(LDepositH(g[k]), Sub(m[k], Least(m, 5))))
  {
    hide TermExponents, Least, LExtract, LShr, Sub, LDepositH;
  }

  lemma ShiftedWord(x: Word16, n: nat)
    ensures var w := (0x1_0000 * (x as int)) / TwoTo(n);
      LExtract(LShr(LDepositH(x), n)).Value() == w - w % 2
  {
    hide TwoTo, LExtract;
    ExtractDropsOneBit(LShr(LDepositH(x), n));
  }

  lemma SmallDifference(x: Word16, y: Word16)
    requires -8000 <= x <= 8000 && -8000 <= y <= 8000
    ensures Sub(x, y) as int == x as int - y as int
  {}

  function Exponents(e: seq<Word16>, q: Word16): (m: seq<int>)
    requires |e| == 5
    ensures |m| == 5
  {
    [e[0] as int + 13, e[1] as int + 14, e[2] as int + 2 * (q as int) - 21, e[3] as int + q as int - 3,
     e[4] as int + q as int - 4]
  }

  lemma ExponentsAre(e: seq<Word16>, q: Word16)
    requires |e| == 5 && -1000 <= q <= 1000 && forall i :: 0 <= i < 5 ==> -1000 <= e[i] <= 1000
    ensures forall i :: 0 <= i < 5 ==>
      TermExponents(e, q)[i] as int == Exponents(e, q)[i] && -8000 <= TermExponents(e, q)[i] <= 8000
  {
    assert TwoTo(1) == 2;
    assert Shl(q, 1) as int == 2 * (q as int);
    hide Shl;
  }

  lemma LeastIs(m: seq<Word16>, least: int)
    requires |m| == 5 && (forall i :: 0 <= i < 5 ==> least <= m[i]) && exists i :: 0 <= i < 5 && m[i] as int == least
    ensures Least(m, 5) as int == least
  {
    hide Least;
    var r := Least(m, 5);
    var i :| 0 <= i < 5 && m[i] as int == least;
    assert r <= m[i];
  }

  // ----- The optimum

  // The error of a pair of gains, as a quadratic form in the five correlations.
  function Form(c: seq<real>, p: real, q: real): real
    requires |c| == 5
  {
    c[0] * (p * p) + c[1] * p + c[2] * (q * q) + c[3] * q + c[4] * (p * q)
  }

  function Det(c: seq<real>): real
    requires |c| == 5
  {
    4.0 * (c[0] * c[2]) - c[4] * c[4]
  }

  function PitchOptimum(c: seq<real>): real
    requires |c| == 5 && Det(c) > 0.0
  {
    -(2.0 * (c[2] * c[1]) - c[3] * c[4]) / Det(c)
  }

  function CodeOptimum(c: seq<real>): real
    requires |c| == 5 && Det(c) > 0.0
  {
    -(2.0 * (c[0] * c[3]) - c[1] * c[4]) / Det(c)
  }

  /** The two quotients that the unquantised gains stand for minimise that error over all pairs of gains,
      and no other pair reaches it. */
  lemma OptimumMinimises(c: seq<real>, p: real, q: real)
    requires |c| == 5 && c[0] > 0.0 && Det(c) > 0.0
    ensures var (p0, q0) := (PitchOptimum(c), CodeOptimum(c));
      Form(c, p0, q0) <= Form(c, p, q) && (Form(c, p0, q0) == Form(c, p, q) ==> p == p0 && q == q0)
  {
    Stationary(c);
    hide Det, Form, PitchOptimum, CodeOptimum;
    Excess(c, PitchOptimum(c), CodeOptimum(c), p - PitchOptimum(c), q - CodeOptimum(c));
    Definite(c, p - PitchOptimum(c), q - CodeOptimum(c));
    hide Homogeneous;
  }

  // Both derivatives vanish there.
  predicate Flat(c: seq<real>, p: real, q: real)
    requires |c| == 5
  {
    2.0 * (c[0] * p) + c[1] + c[4] * q == 0.0 && 2.0 * (c[2] * q) + c[3] + c[4] * p == 0.0
  }

  lemma Stationary(c: seq<real>)
    requires |c| == 5 && Det(c) > 0.0
    ensures Flat(c, PitchOptimum(c), CodeOptimum(c))
  {
    var det := Det(c);
    var (n, m) := (-(2.0 * (c[2] * c[1]) - c[3] * c[4]), -(2.0 * (c[0] * c[3]) - c[1] * c[4]));
    Vanishes(c[0], c[1], c[4], det, n, m) by {
      assert 2.0 * (c[0] * n) + c[1] * det + c[4] * m == 0.0;
    }
    Vanishes(c[2], c[3], c[4], det, m, n) by {
      assert 2.0 * (c[2] * m) + c[3] * det + c[4] * n == 0.0;
    }
    hide Det;
  }

  lemma Vanishes(a: real, b: real, e: real, det: real, n: real, m: real)
    requires det > 0.0 && 2.0 * (a * n) + b * det + e * m == 0.0
    ensures 2.0 * (a * (n / det)) + b + e * (m / det) == 0.0
  {
    var (p, q) := (n / det, m / det);
    assert p * det == n && q * det == m;
    assert (2.0 * (a * p) + b + e * q) * det == 2.0 * (a * (p * det)) + b * det + e * (q * det);
    NoDivisorOfZero(2.0 * (a * p) + b + e * q, det);
  }

  lemma NoDivisorOfZero(x: real, det: real)
    requires x * det == 0.0 && det > 0.0
    ensures x == 0.0
  {}

  function Homogeneous(c: seq<real>, u: real, v: real): real
    requires |c| == 5
  {
    c[0] * (u * u) + c[2] * (v * v) + c[4] * (u * v)
  }

  // So a step away adds the homogeneous form alone.
  lemma Excess(c: seq<real>, p: real, q: real, u: real, v: real)
    requires |c| == 5 && Flat(c, p, q)
    ensures Form(c, p + u, q + v) == Form(c, p, q) + Homogeneous(c, u, v)
  {
    Expanded(c[0], c[1], c[2], c[3], c[4], p, q, u, v);
  }

  lemma Expanded(a: real, b: real, c: real, d: real, e: real, p: real, q: real, u: real, v: real)
    requires 2.0 * (a * p) + b + e * q == 0.0 && 2.0 * (c * q) + d + e * p == 0.0
    ensures a * ((p + u) * (p + u)) + b * (p + u) + c * ((q + v) * (q + v)) + d * (q + v) + e * ((p + u) * (q + v))
         == (a * (p * p) + b * p + c * (q * q) + d * q + e * (p * q)) + (a * (u * u) + c * (v * v) + e * (u * v))
  {
    assert (2.0 * (a * p) + b + e * q) * u == 0.0 && (2.0 * (c * q) + d + e * p) * v == 0.0;
  }

  // Four times c0 times the form is a square and the determinant times a square.
  lemma Definite(c: seq<real>, u: real, v: real)
    requires |c| == 5 && c[0] > 0.0 && Det(c) > 0.0
    ensures Homogeneous(c, u, v) >= 0.0 && (Homogeneous(c, u, v) == 0.0 ==> u == 0.0 && v == 0.0)
  {
    var w := 2.0 * (c[0] * u) + c[4] * v;
    Completed(c[0], c[2], c[4], u, v);
    SumOfSquares(w, v, Det(c), c[0], Homogeneous(c, u, v));
    hide Det, Homogeneous;
    if Homogeneous(c, u, v) == 0.0 {
      assert c[0] * u == 0.0;
      NoDivisorOfZero(u, c[0]);
    }
  }

  lemma Completed(a: real, c: real, e: real, u: real, v: real)
    ensures var w := 2.0 * (a * u) + e * v;
      4.0 * (a * (a * (u * u) + c * (v * v) + e * (u * v))) == w * w + (4.0 * (a * c) - e * e) * (v * v)
  {
    var w := 2.0 * (a * u) + e * v;
    assert w * w == 4.0 * (a * u) * (a * u) + 4.0 * (a * u) * (e * v) + (e * v) * (e * v);
  }

  lemma SumOfSquares(w: real, v: real, det: real, a: real, x: real)
    requires a > 0.0 && det > 0.0 && 4.0 * (a * x) == w * w + det * (v * v)
    ensures x >= 0.0 && (x == 0.0 ==> w == 0.0 && v == 0.0)
  {
    NotNegative(w);
    NotNegative(v);
    assert det * (v * v) >= 0.0;
    if x == 0.0 {
      assert a * x == 0.0;
      NoDivisorOfZero(v * v, det);
      NoRootOfZero(v);
      NoRootOfZero(w);
    }
  }

  lemma NotNegative(x: real)
    ensures x * x >= 0.0
  {}

  lemma NoRootOfZero(x: real)
    requires x * x == 0.0
    ensures x == 0.0
  {
    if x > 0.0 {
      NoDivisorOfZero(x, x);
    } else if x < 0.0 {
      NoDivisorOfZero(x, -x);
    }
  }

  /** The preselection works on the predicted gain in Q4: divided or multiplied by the power of two that
      its exponent is away from 4. */
  lemma PredictionInQ4(p: Predicted)
    requires 0 <= p.gcode0 && -1000 <= p.exponent <= 1000
    ensures p.exponent >= 4 ==> InQ4(p) as int == (p.gcode0 as int) / TwoTo(p.exponent as int - 4)
    ensures p.exponent < 4 && (p.gcode0 as int) * TwoTo(4 - p.exponent) <= 0x7fff
      ==> InQ4(p) as int == (p.gcode0 as int) * TwoTo(4 - p.exponent)
  {
    hide TwoTo;
    var x: int, n := p.gcode0, 4 - p.exponent as int;
    TwoToWord();
    if n <= -15 {
      TwoToMono(15, -n);
      DivUnique(x, TwoTo(-n), 0);
    } else if n > 0 {
      TwoToSum(16, n);
      UpperProduct(x, TwoTo(n));
      assert Sub(20, p.exponent) as int == 16 + n && x * TwoTo(16 + n) == 0x1_0000 * (x * TwoTo(n));
      if x * TwoTo(n) <= 0x7fff {
        MulMono(0, x, TwoTo(n));
        assert LShl(p.gcode0, 16 + n) as int == 0x1_0000 * (x * TwoTo(n));
      }
    }
  }

  lemma UpperProduct(x: int, d: int)
    ensures x * (0x1_0000 * d) == 0x1_0000 * (x * d) && (0x1_0000 * (x * d)) / 0x1_0000 == x * d
  {
  }
}
