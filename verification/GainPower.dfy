/** How far the logarithm and the power of two by table (DSPFUNC.C), and the predicted gain made of
    them (GAINPRED.C), are from the exact functions: 32nd powers are compared with powers of two,
    so one step is a 32nd of an octave, less than 0.2 dB. */
module GainPower {
  import opened BasicOp
  import opened Oper32b
  import opened Gain

  function Sq(x: int): int { x * x }

  // x to the power 32
  function P32(x: int): int { Sq(Sq(Sq(Sq(Sq(x))))) }

  lemma SqMono(x: int, y: int)
    requires 0 <= x <= y
    ensures 0 <= Sq(x) <= Sq(y)
  {
    MulMono(x, y, x);
    MulMono(x, y, y);
  }

  lemma P32Mono(x: int, y: int)
    requires 0 <= x <= y
    ensures 0 <= P32(x) <= P32(y)
  {
    hide Sq;
    SqMono(x, y);
    SqMono(Sq(x), Sq(y));
    SqMono(Sq(Sq(x)), Sq(Sq(y)));
    SqMono(Sq(Sq(Sq(x))), Sq(Sq(Sq(y))));
    SqMono(Sq(Sq(Sq(Sq(x)))), Sq(Sq(Sq(Sq(y)))));
  }

  lemma SqProduct(x: int, y: int)
    ensures Sq(Product(x, y)) == Product(Sq(x), Sq(y))
  {
    assert (x * y) * (x * y) == (x * x) * (y * y);
  }

  lemma P32Product(x: int, y: int)
    ensures P32(Product(x, y)) == Product(P32(x), P32(y))
  {
    hide Sq, Product;
    SqProduct(x, y);
    SqProduct(Sq(x), Sq(y));
    SqProduct(Sq(Sq(x)), Sq(Sq(y)));
    SqProduct(Sq(Sq(Sq(x))), Sq(Sq(Sq(y))));
    SqProduct(Sq(Sq(Sq(Sq(x)))), Sq(Sq(Sq(Sq(y)))));
  }

  lemma SqTwoTo(n: nat)
    ensures Sq(TwoTo(n)) == TwoTo(2 * n)
  {
    TwoToSum(n, n);
    hide TwoTo;
  }

  lemma P32TwoTo(n: nat)
    ensures P32(TwoTo(n)) == TwoTo(32 * n)
  {
    hide Sq, TwoTo;
    SqTwoTo(n);
    SqTwoTo(2 * n);
    SqTwoTo(4 * n);
    SqTwoTo(8 * n);
    SqTwoTo(16 * n);
  }

  // ----- The tables

  // Powers of two up to 2^32.
  const POWERS: seq<int> := [
    1, 2, 4, 8, 16, 32, 64, 128, 256, 512, 1024, 2048, 4096, 8192, 16384, 32768, 65536, 131072, 262144, 524288,
    1048576, 2097152, 4194304, 8388608, 16777216, 33554432, 67108864, 134217728, 268435456, 536870912, 1073741824,
    2147483648, 4294967296, 8589934592]

  lemma {:induction false} PowerAt(i: nat)
    requires i <= 33
    ensures POWERS[i] == TwoTo(i)
  {
    if i > 0 { PowerAt(i - 1); }
  }

  // Entry i of the table of powers is 2^(14 + i / 32) to one unit.
  lemma PowEntry(i: nat)
    requires i <= 32
    ensures P32(PowStep(i) - 1) <= Product(P32(16384), TwoTo(i)) <= P32(PowStep(i) + 1)
  {
    hide TwoTo, P32, PowStep, Product;
    PowerAt(i);
    if i < 11 {
      PowLow(i);
    } else if i < 22 {
      PowMiddle(i);
    } else {
      PowHigh(i);
    }
  }

  lemma PowLow(i: nat)
    requires 0 <= i < 11
    ensures P32(PowStep(i) - 1) <= Product(P32(16384), POWERS[i]) <= P32(PowStep(i) + 1)
  {}

  lemma PowMiddle(i: nat)
    requires 11 <= i < 22
    ensures P32(PowStep(i) - 1) <= Product(P32(16384), POWERS[i]) <= P32(PowStep(i) + 1)
  {}

  lemma PowHigh(i: nat)
    requires 22 <= i < 33
    ensures P32(PowStep(i) - 1) <= Product(P32(16384), POWERS[i]) <= P32(PowStep(i) + 1)
  {}

  // Entry j of the table of logarithms is log2(1 + j / 32) to a 32nd.
  lemma LogEntry(j: nat)
    requires j <= 32
    ensures Product(P32(32), TwoTo(LogStep(j) / 1024)) <= P32(32 + j) <= Product(P32(32), TwoTo(LogStep(j) / 1024 + 1))
  {
    hide TwoTo, P32, LogStep, Product;
    LogRange(j);
    PowerAt(LogStep(j) / 1024);
    PowerAt(LogStep(j) / 1024 + 1);
    if j < 6 {
      LogFirst(j);
    } else if j < 12 {
      LogSecond(j);
    } else if j < 22 {
      LogThird(j);
    } else {
      LogFourth(j);
    }
  }

  lemma LogRange(j: nat)
    requires j <= 32
    ensures 0 <= LogStep(j) / 1024 <= 31
  {}

  lemma LogFirst(j: nat)
    requires 0 <= j < 6
    ensures Product(P32(32), POWERS[LogStep(j) / 1024]) <= P32(32 + j)
         <= Product(P32(32), POWERS[LogStep(j) / 1024 + 1])
  {}

  lemma LogSecond(j: nat)
    requires 6 <= j < 12
    ensures Product(P32(32), POWERS[LogStep(j) / 1024]) <= P32(32 + j)
         <= Product(P32(32), POWERS[LogStep(j) / 1024 + 1])
  {}

  lemma LogThird(j: nat)
    requires 12 <= j < 22
    ensures Product(P32(32), POWERS[LogStep(j) / 1024]) <= P32(32 + j)
         <= Product(P32(32), POWERS[LogStep(j) / 1024 + 1])
  {}

  lemma LogFourth(j: nat)
    requires 22 <= j < 33
    ensures Product(P32(32), POWERS[LogStep(j) / 1024]) <= P32(32 + j)
         <= Product(P32(32), POWERS[LogStep(j) / 1024 + 1])
  {}

  // ----- The two functions

  lemma PowerSum(m: nat, n: nat)
    ensures TwoTo(m + n) == Product(TwoTo(m), TwoTo(n))
  {
    TwoToSum(m, n);
    hide TwoTo;
  }

  lemma Scale()
    ensures P32(16384) == TwoTo(448) && P32(32) == TwoTo(160) && TwoTo(14) == 16384 && TwoTo(5) == 32
  {
    assert TwoTo(5) == 32;
    TwoToSum(5, 9);
    assert TwoTo(9) == 512;
    P32TwoTo(14);
    P32TwoTo(5);
  }

  /** Pow2 is 2^(14 + fraction) to a 32nd of an octave and one unit: the exact power lies in the
      same cell, between the two powers of two compared with. */
  lemma PowNear(fraction: Word16)
    requires 0 <= fraction
    ensures P32(Pow2Of14(fraction) - 1) <= TwoTo(448 + fraction / 1024 + 1)
    ensures TwoTo(448 + fraction / 1024) <= P32(Pow2Of14(fraction) + 1)
  {
    hide Pow2Of14, P32, TwoTo, PowStep, Product;
    var i := PowCell(fraction);
    PowInterpolates(fraction);
    PowBetween(i, Pow2Of14(fraction));
  }

  lemma PowBetween(i: nat, p: int)
    requires i < 32 && PowStep(i) <= p <= PowStep(i + 1)
    ensures P32(p - 1) <= TwoTo(448 + i + 1) && TwoTo(448 + i) <= P32(p + 1)
  {
    hide P32, TwoTo, PowStep, Product;
    PowEntry(i);
    PowEntry(i + 1);
    TablesRise(i);
    Scale();
    PowerSum(448, i);
    PowerSum(448, i + 1);
    P32Mono(PowStep(i) as int + 1, p + 1);
    P32Mono(p - 1, PowStep(i + 1) as int - 1);
  }

  /** Log2 of a positive word is at most two 32nds of an octave above the exact logarithm and at
      most three below. */
  lemma LogNear(x: Word32)
    requires x > 0
    ensures var r := Log2(x);
      var e := 32 * r.hi + r.lo / 1024;
      TwoTo(e) <= 4 * P32(x) && P32(x) <= TwoTo(e + 3)
  {
    hide Log2, P32, TwoTo, NormL, LogStep, LogCell, LogPart, Towards, Product;
    var r, j, n := Log2(x), LogCell(x), NormL(x);
    LogIndex(x);
    var y := Product(x, TwoTo(n));
    CellOf(x);
    TablesSteps(j);
    LogEntry(j);
    LogEntry(j + 1);
    var k: nat := r.lo / 1024;
    MantissaNear(y, j, LogStep(j) / 1024, LogStep(j + 1) / 1024, k);
    Denormalised(x, n, k);
  }

  lemma CellOf(x: Word32)
    requires x > 0
    ensures var y := Product(x, TwoTo(NormL(x)));
      0x200_0000 * (32 + LogCell(x)) <= y <= 0x200_0000 * (33 + LogCell(x))
  {
    LogIndex(x);
    hide NormL, TwoTo, Product;
  }

  lemma TablesSteps(j: nat)
    requires j < 32
    ensures 0 <= LogStep(j) <= LogStep(j + 1) <= LogStep(j) + 1455
  {}

  // The mantissa against powers of two.
  lemma MantissaNear(y: int, j: nat, a: nat, b: nat, k: nat)
    requires j < 32 && 0x200_0000 * (32 + j) <= y <= 0x200_0000 * (33 + j)
    requires Product(P32(32), TwoTo(a)) <= P32(32 + j) && P32(33 + j) <= Product(P32(32), TwoTo(b + 1))
    requires a <= k <= b <= a + 2
    ensures TwoTo(960 + k) <= 4 * P32(y) && P32(y) <= TwoTo(960 + k + 3)
  {
    MantissaBelow(y, j, a);
    MantissaAbove(y, j, b);
    Twice(960 + a);
    TwoToMono(960 + k, 960 + a + 2);
    TwoToMono(961 + b, 960 + k + 3);
    hide P32, TwoTo, Product;
  }

  lemma MantissaBelow(y: int, j: nat, a: nat)
    requires 0x200_0000 * (32 + j) <= y && Product(P32(32), TwoTo(a)) <= P32(32 + j)
    ensures TwoTo(960 + a) <= P32(y)
  {
    hide P32, TwoTo, Product;
    Scale();
    P32TwoTo(25);
    TwentyFive();
    PowerSum(160, a);
    PowerSum(800, 160 + a);
    IsProduct(0x200_0000, 32 + j);
    P32Mono(Product(0x200_0000, 32 + j), y);
    P32Product(0x200_0000, 32 + j);
    ProductMono(TwoTo(800), TwoTo(160 + a), P32(32 + j));
  }

  lemma MantissaAbove(y: int, j: nat, b: nat)
    requires 0 <= y <= 0x200_0000 * (33 + j) && P32(33 + j) <= Product(P32(32), TwoTo(b + 1))
    ensures P32(y) <= TwoTo(961 + b)
  {
    hide P32, TwoTo, Product;
    Scale();
    P32TwoTo(25);
    TwentyFive();
    PowerSum(160, b + 1);
    PowerSum(800, 161 + b);
    IsProduct(0x200_0000, 33 + j);
    P32Mono(y, Product(0x200_0000, 33 + j));
    P32Product(0x200_0000, 33 + j);
    ProductMono(TwoTo(800), P32(33 + j), TwoTo(161 + b));
  }

  lemma TwentyFive()
    ensures TwoTo(25) == 0x200_0000
  {
    assert TwoTo(10) == 0x400;
    TwoToSum(10, 10);
    TwoToSum(20, 5);
    assert TwoTo(5) == 32;
  }

  lemma Twice(n: nat)
    ensures TwoTo(n + 2) == 4 * TwoTo(n)
  {
    assert TwoTo(n + 2) == 2 * TwoTo(n + 1);
  }

  lemma ProductMono(k: int, x: int, y: int)
    requires k >= 0 && x <= y
    ensures Product(k, x) <= Product(k, y)
  {
    MulMono(x, y, k);
  }

  // The same for the word itself.
  lemma Denormalised(x: Word32, n: nat, k: nat)
    requires x > 0 && n <= 30
    requires TwoTo(960 + k) <= 4 * P32(Product(x, TwoTo(n))) && P32(Product(x, TwoTo(n))) <= TwoTo(960 + k + 3)
    ensures TwoTo(32 * (30 - n) + k) <= 4 * P32(x) && P32(x) <= TwoTo(32 * (30 - n) + k + 3)
  {
    hide P32, TwoTo, Product;
    P32Product(x, TwoTo(n));
    P32TwoTo(n);
    var m, e := 32 * n, 32 * (30 - n) + k;
    PowerSum(e, m);
    PowerSum(e + 3, m);
    Fourfold(P32(x), TwoTo(m));
    Cancelled(TwoTo(e), 4 * P32(x), TwoTo(m));
    Cancelled(P32(x), TwoTo(e + 3), TwoTo(m));
  }

  lemma Fourfold(x: int, d: int)
    ensures Product(4 * x, d) == 4 * Product(x, d)
  {}

  lemma Cancelled(x: int, y: int, d: int)
    requires d > 0 && Product(x, d) <= Product(y, d)
    ensures x <= y
  {
    if x > y { MulMono(y + 1, x, d); }
  }

  // ----- The predicted gain

  // Floor of 32 times the binary logarithm of the gain of a level in Q8, with the source's factor
  // 5439 / 2^15 for log2(10) / 20.
  function GainOctave(level: Word16): int { (10878 * level) / 0x8_0000 }

  /** The predicted gain gcode0 / 2^exponent is the power of two that the level stands for to a
      32nd of an octave and one unit of its mantissa. */
  lemma GainNear(level: Word16)
    ensures var p := FromLogarithm(level);
      var e := GainOctave(level) + 32 * p.exponent;
      && 448 <= e < 480
      && P32(p.gcode0 - 1) <= TwoTo(e + 1) && TwoTo(e) <= P32(p.gcode0 + 1)
  {
    hide LShr, LMult, LExtract, Pow2Of14, P32, TwoTo, GainOctave, Sub, ExtractL;
    LevelParts(level);
    var d := LExtract(LShr(LMult(level, 5439), 8));
    var q := Pow2Of14(d.lo);
    PowNear(d.lo);
    WordOf(q);
    SameWord(FromLogarithm(level).gcode0, q);
    assert GainOctave(level) + 32 * FromLogarithm(level).exponent == 448 + d.lo / 1024;
  }

  lemma SameWord(p: Word16, q: Word32)
    requires p as int == q as int
    ensures P32(p - 1) == P32(q - 1) && P32(p + 1) == P32(q + 1)
  {}

  lemma WordOf(x: Word32)
    requires 0 <= x <= MAX_16
    ensures ExtractL(x) as int == x as int
  {
    Wrap16Unique(x, x, 0);
  }

  lemma LevelParts(level: Word16)
    ensures var d := LExtract(LShr(LMult(level, 5439), 8));
      && d.lo >= 0 && Sub(14, d.hi) as int == 14 - d.hi
      && GainOctave(level) == 32 * d.hi + d.lo / 1024
  {
    var w: int := 10878 * (level as int);
    assert TwoTo(8) == 256;
    var x := LShr(LMult(level, 5439), 8);
    assert x as int == w / 256;
    ExtractDropsOneBit(x);
    var d := LExtract(x);
    hide LExtract, LShr, LMult, TwoTo;
    DivBounds(w, 256);
    OctaveParts(w, x, d.hi, d.lo);
  }

  lemma OctaveParts(w: int, x: int, hi: int, lo: int)
    requires 256 * x <= w < 256 * x + 256 && 0x1_0000 * hi + 2 * lo == x - x % 2 && 0 <= lo < 0x8000
    ensures w / 0x8_0000 == 32 * hi + lo / 1024
  {
    var q, r := lo / 1024, lo % 1024;
    DivUnique(w, 0x8_0000, 32 * hi + q);
  }
}
