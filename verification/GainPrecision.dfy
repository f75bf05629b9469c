/** How far the unquantised gains of Qua_gain (QUA_GAIN.C) are from the exact optimum: the
    differences of products, and the division by normalised upper halves. */
module GainPrecision {
  import opened BasicOp
  import opened Gain

  // ----- Powers of two

  function Pow2(e: int): (r: real)
    ensures r > 0.0
  {
    if e >= 0 then TwoTo(e) as real else 1.0 / (TwoTo(-e) as real)
  }

  lemma {:induction false} Pow2Next(e: int)
    ensures Pow2(e + 1) == 2.0 * Pow2(e)
  {
    if e >= 0 {
      assert TwoTo(e + 1) == 2 * TwoTo(e);
    } else {
      assert TwoTo(-e) == 2 * TwoTo(-e - 1);
      var x := TwoTo(-e - 1) as real;
      assert TwoTo(-e) as real == 2.0 * x;
      assert 2.0 * (1.0 / (2.0 * x)) == 1.0 / x;
    }
  }

  function Times(x: real, y: real): real { x * y }

  lemma TimesLaws(x: real, y: real, z: real)
    ensures Times(x, y) == Times(y, x) && Times(x, 1.0) == x && Times(x, 2.0 * y) == 2.0 * Times(x, y)
    ensures Times(Times(x, y), z) == Times(x, Times(y, z))
    ensures Times(x - y, z) == Times(x, z) - Times(y, z)
  {
    assert x * y * z == x * (y * z);
  }

  lemma Pow2Zero()
    ensures Pow2(0) == 1.0
  {
    assert TwoTo(0) == 1;
  }

  lemma {:induction false} Pow2Sum(a: int, b: nat)
    ensures Pow2(a + b) == Times(Pow2(a), Pow2(b))
    decreases b
  {
    hide Pow2, Times;
    if b == 0 {
      Pow2Zero();
      TimesLaws(Pow2(a), 1.0, 1.0);
    } else {
      Pow2Sum(a, b - 1);
      Pow2Next(a + b - 1);
      Pow2Next(b - 1);
      TimesLaws(Pow2(a), Pow2(b - 1), 1.0);
    }
  }

  /** The sum of exponents is the product of powers, for either sign. */
  lemma Pow2Add(a: int, b: int)
    ensures Pow2(a + b) == Times(Pow2(a), Pow2(b))
  {
    hide Pow2, Times;
    if b >= 0 {
      Pow2Sum(a, b);
    } else {
      Pow2Sum(a + b, -b);
      Pow2Sum(b, -b);
      Pow2Zero();
      TimesLaws(Pow2(a + b), Pow2(-b), Pow2(b));
      TimesLaws(Pow2(-b), Pow2(b), 1.0);
      TimesLaws(Pow2(a + b), 1.0, 1.0);
    }
  }

  // The number a mantissa and its exponent stand for.
  function Value(d: Scaled): real { Times(d.value as real, Pow2(-(d.exponent as int))) }

  // ----- Differences of products

  function Exact(x: Word32, m: Word16, y: Word32, n: Word16): real {
    Times(x as real, Pow2(-(m as int))) - Times(y as real, Pow2(-(n as int)))
  }

  // Rounding down at a coarser exponent.
  lemma ShiftedDown(x: Word32, n: nat, m: int)
    ensures -1.0 < LShr(x, n) as real - Times(Times(x as real, Pow2(-m)), Pow2(m - n)) <= 0.0
  {
    hide Pow2, Times, LShr;
    Pow2Add(-m, m - n);
    TimesLaws(x as real, Pow2(-m), Pow2(m - n));
    FloorReal(x, n);
  }

  lemma FloorReal(x: Word32, n: nat)
    ensures -1.0 < LShr(x, n) as real - Times(x as real, Pow2(-(n as int))) <= 0.0
  {
    hide TwoTo;
    var d := TwoTo(n);
    DivBounds(x, d);
    if n == 0 { Pow2Zero(); Pow2Whole(); }
    DownReal(x, d, x / d);
  }

  lemma Pow2Whole()
    ensures TwoTo(0) == 1
  {}

  lemma DownReal(x: int, d: int, q: int)
    requires d > 0 && d * q <= x < d * q + d
    ensures -1.0 < q as real - Times(x as real, 1.0 / (d as real)) <= 0.0
  {
    hide Times;
    var r := d as real;
    var inv := 1.0 / r;
    WholeProduct(d, q);
    Inverse(r);
    TimesLaws(x as real, inv, r);
    TimesLaws(x as real, 1.0, 1.0);
    Cancel(q as real, Times(x as real, inv), r);
  }

  lemma WholeProduct(d: int, q: int)
    ensures (d * q) as real == Times(q as real, d as real)
  {}

  lemma Inverse(r: real)
    requires r > 0.0
    ensures Times(1.0 / r, r) == 1.0
  {}

  lemma Cancel(q: real, t: real, r: real)
    requires r > 0.0 && Times(q, r) <= Times(t, r) < Times(q, r) + r
    ensures q <= t < q + 1.0
  {
    if t < q {
      TimesGrows(t, q, r);
    } else if t >= q + 1.0 {
      TimesSum(q, t - q, r);
      TimesAtLeast(t - q, r);
    }
  }

  lemma TimesGrows(x: real, y: real, r: real)
    requires x < y && r > 0.0
    ensures Times(x, r) < Times(y, r)
  {
    assert (y - x) * r > 0.0;
  }

  lemma TimesAtLeast(x: real, r: real)
    requires x >= 1.0 && r > 0.0
    ensures Times(x, r) >= r
  {
    assert (x - 1.0) * r >= 0.0;
  }

  lemma TimesSum(x: real, y: real, r: real)
    ensures Times(x + y, r) == Times(x, r) + Times(y, r)
  {}

  /** A difference of two products is within one unit of its own exponent of the exact one. */
  lemma DifferenceNear(x: Word32, m: Word16, y: Word32, n: Word16, guard: Word16)
    requires -1000 <= m <= 1000 && -1000 <= n <= 1000
    requires guard == 1 || (guard == 0 && x >= 0 && y >= 0)
    ensures var d := Difference(x, m, y, n, guard);
      -1.0 < d.value as real - Times(Exact(x, m, y, n), Pow2(d.exponent)) < 1.0
  {
    hide Pow2, Times, LShr;
    var d := Difference(x, m, y, n, guard);
    var e := d.exponent as int;
    var i, j := m as int - e, n as int - e;
    ShiftedDown(x, i, m);
    ShiftedDown(y, j, n);
    HalfRange(x, i, guard);
    HalfRange(y, j, guard);
    assert d.value as int == LShr(x, i) as int - LShr(y, j);
    TimesLaws(Times(x as real, Pow2(-(m as int))), Times(y as real, Pow2(-(n as int))), Pow2(e));
  }

  lemma HalfRange(x: Word32, n: nat, guard: int)
    requires n >= guard
    requires guard == 1 || (guard == 0 && x >= 0)
    ensures if guard == 1 then -0x4000_0000 <= LShr(x, n) <= 0x3fff_ffff else LShr(x, n) >= 0
  {
    hide TwoTo;
    var d := TwoTo(n);
    DivBounds(x, d);
    if guard == 1 {
      TwoToOne();
      TwoToMono(1, n);
      HalfQuotient(x, d, x / d);
    }
  }

  lemma TwoToOne()
    ensures TwoTo(1) == 2
  {}

  lemma HalfQuotient(x: Word32, d: int, q: int)
    requires d >= 2 && d * q <= x < d * q + d
    ensures -0x4000_0000 <= q <= 0x3fff_ffff
  {
    if q > 0x3fff_ffff {
      MulMono(2, d, q);
    } else if q < -0x4000_0000 {
      MulMono(2, d, -q - 1);
    }
  }

  // ----- The division

  /** The product of the upper half of x and the reciprocal of that of y is close to -2^30 x / y. */
  lemma ReciprocalError(x: Word32, y: Word32)
    requires y >= 0x4000_0000
    ensures var p := LMult(ExtractH(x), Negate(DivS(16384, ExtractH(y))));
      -0x8000_0000_0000 <= Product(p, y) + 0x4000_0000 * x <= 0xc000_0000_0000
  {
    var a: int, d: int := ExtractH(x), ExtractH(y);
    var v: int := DivS(16384, ExtractH(y));
    DivBounds(x, 0x1_0000);
    DivBounds(y, 0x1_0000);
    var x', y' := x - 0x1_0000 * a, y - 0x1_0000 * d;
    Reciprocal(ExtractH(y));
    var rho := 0x2000_0000 - d * v;
    hide DivS;
    ProductOfHalf(ExtractH(x), v);
    Expanded(a, d, v, x', y');
    ErrorBound(a, rho, v, y', x');
  }

  lemma Reciprocal(d: Word16)
    requires d >= 16384
    ensures var v := DivS(16384, d);
      0 <= v && 0 <= 0x2000_0000 - d * v <= d
  {
    DivBounds(0x2000_0000, d);
  }

  lemma ProductOfHalf(a: Word16, v: Word16)
    requires 0 <= v
    ensures LMult(a, Negate(v)) as int == -2 * (a * v)
  {
    MulMono(Abs(a), 0x8000, v);
    var b: int := a;
    assert b * -(v as int) == -(b * v);
    if b < 0 { assert -b * v == -(b * v); }
  }

  lemma Expanded(a: int, d: int, v: int, x: int, y: int)
    ensures Product(-2 * (a * v), 0x1_0000 * d + y) + 0x4000_0000 * (0x1_0000 * a + x)
      == 0x2_0000 * (a * (0x2000_0000 - d * v)) - 2 * (v * (a * y)) + 0x4000_0000 * x
  {
    assert a * (0x2000_0000 - d * v) == 0x2000_0000 * a - a * (d * v);
    assert (a * v) * (0x1_0000 * d) == 0x1_0000 * (a * (d * v));
    assert (a * v) * y == v * (a * y);
  }

  lemma ErrorBound(a: int, rho: int, v: int, y: int, x: int)
    requires -0x8000 <= a < 0x8000 && 0 <= rho < 0x8000 && 0 <= v < 0x8000 && 0 <= y < 0x1_0000 && 0 <= x < 0x1_0000
    ensures -0x8000_0000_0000 <= 0x2_0000 * (a * rho) - 2 * (v * (a * y)) + 0x4000_0000 * x <= 0xc000_0000_0000
  {
    hide Abs;
    Signed(a, rho);
    Signed(a, y);
    Small(Abs(a), rho, 0x8000, 0x8000);
    Small(Abs(a), y, 0x8000, 0x1_0000);
    Small(v, Abs(a) * y, 0x8000, 0x8000_0000);
    if a < 0 { assert v * -(Abs(a) * y) == -(v * (Abs(a) * y)); }
  }

  lemma Small(x: int, y: int, a: int, b: int)
    requires 0 <= x <= a && 0 <= y <= b
    ensures 0 <= x * y <= a * b
  {
    MulMono(y, b, x);
    MulMono(x, a, b);
  }

  lemma Signed(a: int, x: int)
    ensures Abs(a) >= 0 && a * x == (if a < 0 then -(Abs(a) * x) else Abs(a) * x)
    ensures Abs(a) == if a < 0 then -a else a
  {}

  // The product that Ratio shifts, and by how much.
  function Shiftable(num: Scaled, det: Scaled): Word32
    requires det.value > 0
  {
    hide NormL, LShr, LMult, DivS;
    DivisionGuard(det);
    LMult(Normalised(num).0, Negate(DivS(16384, Normalised(det).0)))
  }

  function ShiftCount(num: Scaled, det: Scaled, wanted: Word16): int {
    num.exponent + NormL(num.value) - (det.exponent + NormL(det.value)) + 29 - wanted
  }

  // The exact optimum at the wanted exponent.
  function Optimum(num: Scaled, det: Scaled, wanted: Word16): real
    requires det.value > 0
  {
    ValuePositive(det);
    -Times(Value(num) / Value(det), Pow2(wanted - 15))
  }

  lemma ValuePositive(d: Scaled)
    requires d.value > 0
    ensures Value(d) > 0.0
  {
    TimesPositive(d.value as real, Pow2(-(d.exponent as int)));
  }

  lemma TimesPositive(x: real, y: real)
    requires x > 0.0 && y > 0.0
    ensures Times(x, y) > 0.0
  {}

  // Normalising does not change the number.
  lemma Renormalised(d: Scaled)
    ensures Value(d) == Times(LShl(d.value, NormL(d.value)) as real, Pow2(-(d.exponent + NormL(d.value))))
  {
    hide LShr, NormL, Times, Pow2, TwoTo;
    var n := NormL(d.value);
    NormalizedShift(d.value);
    WholeProduct(d.value, TwoTo(n));
    PowWhole(n);
    Pow2Add(n, -(d.exponent + n));
    TimesLaws(d.value as real, Pow2(n), Pow2(-(d.exponent + n)));
  }

  lemma PowWhole(n: nat)
    ensures Pow2(n) == TwoTo(n) as real
  {}

  // The upper half of the shifted product.
  lemma UpperFloor(p: Word32, s: int)
    requires s >= 0 || MIN_32 <= p * TwoTo(-s) <= MAX_32
    ensures -1.0 < ExtractH(LShr(p, s)) as real - Times(p as real, Pow2(-16 - s)) <= 0.0
  {
    if s >= 0 {
      FloorReal(p, s + 16);
      NestedFloor(p, s);
    } else {
      ShiftedUp(p, s);
      FloorReal(p * TwoTo(-s), 16);
      SixteenDown(p * TwoTo(-s));
    }
  }

  lemma NestedFloor(p: Word32, s: nat)
    ensures ExtractH(LShr(p, s)) as int == LShr(p, s + 16) as int
  {
    TwoToSum(s, 16);
    TwoToWord();
    hide TwoTo;
    DivTwice(p, TwoTo(s));
  }

  lemma DivTwice(p: int, t: int)
    requires t > 0
    ensures (p / t) / 0x1_0000 == p / (t * 0x1_0000)
  {
    DivBounds(p, t);
    var q := p / t;
    DivBounds(q, 0x1_0000);
    TwiceBetween(p, t, q, q / 0x1_0000);
    DivUnique(p, t * 0x1_0000, q / 0x1_0000);
  }

  lemma TwiceBetween(p: int, t: int, q: int, r: int)
    requires t > 0 && t * q <= p < t * q + t && 0x1_0000 * r <= q < 0x1_0000 * r + 0x1_0000
    ensures (t * 0x1_0000) * r <= p < (t * 0x1_0000) * r + t * 0x1_0000
  {
    MulMono(0x1_0000 * r, q, t);
    MulMono(q + 1, 0x1_0000 * r + 0x1_0000, t);
    assert t * (0x1_0000 * r) == 0x1_0000 * (t * r) && (t * 0x1_0000) * r == 0x1_0000 * (t * r);
  }

  lemma SixteenDown(x: Word32)
    ensures LShr(x, 16) as int == ExtractH(x) as int
  {
    TwoToWord();
  }

  lemma ShiftedUp(p: Word32, s: int)
    requires s < 0 && MIN_32 <= p * TwoTo(-s) <= MAX_32
    ensures LShr(p, s) as int == p * TwoTo(-s)
    ensures Times((p * TwoTo(-s)) as real, Pow2(-16)) == Times(p as real, Pow2(-16 - s))
  {
    hide Times, Pow2, TwoTo;
    WholeProduct(p, TwoTo(-s));
    PowWhole(-s);
    Pow2Add(-s, -16);
    TimesLaws(p as real, Pow2(-s), Pow2(-16));
  }

  /** A gain computed by Qua_gain is the exact optimum of the differences it starts from, but for
      rounding down and three units of the last place of the shifted product, unless the shift
      saturates. */
  lemma RatioNear(num: Scaled, det: Scaled, wanted: Word16)
    requires det.value > 0 && -1000 <= num.exponent <= 1000 && -1000 <= det.exponent <= 1000
    requires -1000 <= wanted <= 1000
    requires var s := ShiftCount(num, det, wanted);
      s >= 0 || MIN_32 <= Shiftable(num, det) * TwoTo(-s) <= MAX_32
    ensures var unit := Pow2(-ShiftCount(num, det, wanted));
      -1.0 - 2.0 * unit < Ratio(num, det, wanted) as real - Optimum(num, det, wanted) <= 3.0 * unit
  {
    hide Pow2, Times, LShr, NormL, LMult, DivS, TwoTo;
    NormalizedShift(num.value);
    NormalizedShift(det.value);
    DivisionGuard(det);
    var s := ShiftCount(num, det, wanted);
    var x, y := LShl(num.value, NormL(num.value)), LShl(det.value, NormL(det.value));
    var p := Shiftable(num, det);
    FullScale(det.value);
    ReciprocalError(x, y);
    UpperFloor(p, s);
    Renormalised(num);
    Renormalised(det);
    QuotientExact(x, y, num.exponent + NormL(num.value), det.exponent + NormL(det.value), wanted, s);
    ProductNear(p, x, y, s);
  }

  lemma FullScale(v: Word32)
    requires v > 0
    ensures LShl(v, NormL(v)) >= 0x4000_0000
  {
    NormalizedShift(v);
    hide NormL, LShr, TwoTo;
    SameSign(v, TwoTo(NormL(v)));
  }

  // The quotient of two numbers at their exponents, brought to another.
  lemma QuotientExact(x: Word32, y: Word32, m: int, n: int, wanted: int, s: int)
    requires y > 0 && s == m - n + 29 - wanted
    ensures Times(y as real, Pow2(-n)) > 0.0
    ensures Times(Times(x as real, Pow2(-m)) / Times(y as real, Pow2(-n)), Pow2(wanted - 15))
         == Times(x as real / y as real, Pow2(14 - s))
  {
    hide Pow2, Times;
    TimesPositive(y as real, Pow2(-n));
    Pow2Add(-n, n - m);
    Pow2Add(n - m, wanted - 15);
    QuotientOfTimes(x as real, y as real, Pow2(-n), Pow2(n - m));
    TimesLaws(x as real / y as real, Pow2(n - m), Pow2(wanted - 15));
  }

  lemma QuotientOfTimes(x: real, y: real, p: real, q: real)
    requires y > 0.0 && p > 0.0
    ensures Times(y, p) > 0.0 && Times(x, Times(p, q)) / Times(y, p) == Times(x / y, q)
  {
    var t := x / y;
    assert t * y == x;
    assert x * (p * q) == (t * q) * (y * p);
    assert y * p > 0.0;
  }

  lemma ProductNear(p: Word32, x: Word32, y: Word32, s: int)
    requires y >= 0x4000_0000
    requires -0x8000_0000_0000 <= Product(p, y) + 0x4000_0000 * x <= 0xc000_0000_0000
    ensures -2.0 * Pow2(-s) <= Times(p as real, Pow2(-16 - s)) + Times(x as real / y as real, Pow2(14 - s))
         <= 3.0 * Pow2(-s)
  {
    hide Pow2, Times;
    Pow2Add(-16 - s, 16);
    Pow2Add(-16 - s, 30);
    Sixteen();
    var t, u := x as real / y as real, Pow2(-16 - s);
    QuotientNear(p, x, y, t);
    TimesLaws(t, u, Pow2(30));
    Linear(Times(t, u));
    Scaled30(p as real, t, u);
    Monotone(-131072.0, p as real + 1073741824.0 * t, u);
    Monotone(p as real + 1073741824.0 * t, 196608.0, u);
    Linear(u);
  }

  lemma Sixteen()
    ensures Pow2(16) == 65536.0 && Pow2(30) == 1073741824.0
  {
    TwoToWord();
    TwoToLarge(30);
  }

  lemma QuotientNear(p: int, x: int, y: int, t: real)
    requires y >= 0x4000_0000 && t == x as real / y as real
    requires -0x8000_0000_0000 <= Product(p, y) + 0x4000_0000 * x <= 0xc000_0000_0000
    ensures -131072.0 <= p as real + 1073741824.0 * t <= 196608.0
  {
    var r := y as real;
    assert t * r == x as real;
    assert (p * y) as real == (p as real) * r;
    var z := p as real + 1073741824.0 * t;
    assert z * r == (Product(p, y) + 0x4000_0000 * x) as real;
    if z < -131072.0 {
      TimesBelow(-131072.0 - z, r);
    } else if z > 196608.0 {
      TimesBelow(z - 196608.0, r);
    }
  }

  lemma TimesBelow(d: real, r: real)
    requires d > 0.0 && r > 0.0
    ensures d * r > 0.0
  {}

  lemma Scaled30(p: real, t: real, u: real)
    ensures Times(p + 1073741824.0 * t, u) == Times(p, u) + 1073741824.0 * Times(t, u)
  {
    assert (1073741824.0 * t) * u == 1073741824.0 * (t * u);
  }

  lemma Monotone(x: real, y: real, u: real)
    requires x <= y && u > 0.0
    ensures Times(x, u) <= Times(y, u)
  {
    assert (y - x) * u >= 0.0;
  }

  lemma Linear(u: real)
    ensures Times(-131072.0, u) == -131072.0 * u && Times(196608.0, u) == 196608.0 * u
    ensures Times(u, 65536.0) == 65536.0 * u && Times(u, 1073741824.0) == 1073741824.0 * u
  {}

  // ----- Both gains

  // The shift of the quotient does not saturate.
  predicate ShiftFits(num: Scaled, det: Scaled, wanted: Word16)
    requires det.value > 0
  {
    var s := ShiftCount(num, det, wanted);
    s >= 0 || MIN_32 <= Shiftable(num, det) * TwoTo(-s) <= MAX_32
  }

  // d is within one unit of its exponent of the exact difference.
  predicate OneUnit(d: Scaled, x: Word32, m: Word16, y: Word32, n: Word16) {
    -1.0 < d.value as real - Times(Exact(x, m, y, n), Pow2(d.exponent)) < 1.0
  }

  // A gain is close to the optimum of num and det.
  ghost predicate NearOptimum(gain: Word16, num: Scaled, det: Scaled, wanted: Word16)
    requires det.value > 0
  {
    var unit := Pow2(-ShiftCount(num, det, wanted));
    -1.0 - 2.0 * unit < gain as real - Optimum(num, det, wanted) <= 3.0 * unit
  }

  /** The two unquantised gains: the three differences are within one unit of the exact ones, and
      each gain is near the optimum they give, in Q9 and Q2. */
  lemma GainsNear(g: seq<Word16>, e: seq<Word16>)
    requires |g| == |e| == 5 && (forall i :: 0 <= i < 5 ==> -200 <= e[i] <= 200)
    requires g[0] >= 0 && g[2] >= 0 && Determinant(g, e).value > 0
    ensures var det, pitch, code := Determinant(g, e), PitchNumerator(g, e), CodeNumerator(g, e);
      && OneUnit(det, LMult(g[0], g[2]), e[0] + e[2] - 1, LMult(g[4], g[4]), 2 * e[4] + 1)
      && OneUnit(pitch, LMult(g[2], g[1]), e[2] + e[1], LMult(g[3], g[4]), e[3] + e[4] + 1)
      && OneUnit(code, LMult(g[0], g[3]), e[0] + e[3], LMult(g[1], g[4]), e[1] + e[4] + 1)
      && (ShiftFits(pitch, det, 24) ==> NearOptimum(BestPitchGain(g, e, false), pitch, det, 24))
      && (ShiftFits(code, det, 17) ==> NearOptimum(BestCodeGain(g, e), code, det, 17))
  {
    hide *;
    DeterminantUnit(g, e);
    PitchUnit(g, e);
    CodeUnit(g, e);
    PitchNear(g, e);
    CodeNear(g, e);
  }

  lemma DeterminantUnit(g: seq<Word16>, e: seq<Word16>)
    requires |g| == |e| == 5 && (forall i :: 0 <= i < 5 ==> -200 <= e[i] <= 200) && g[0] >= 0 && g[2] >= 0
    ensures OneUnit(Determinant(g, e), LMult(g[0], g[2]), e[0] + e[2] - 1, LMult(g[4], g[4]), 2 * e[4] + 1)
    ensures -701 <= Determinant(g, e).exponent <= 700
  {
    hide LMult, Difference, OneUnit;
    ProductSign(g[0], g[2]);
    ProductSign(g[4], g[4]);
    var e0, e2, e4 := e[0], e[2], e[4];
    assert Add(Add(e0, e2), -1) as int == e0 + e2 - 1;
    assert Add(Add(e4, e4), 1) as int == 2 * e4 + 1;
    Unit(LMult(g[0], g[2]), e0 + e2 - 1, LMult(g[4], g[4]), 2 * e4 + 1, 0);
  }

  lemma PitchUnit(g: seq<Word16>, e: seq<Word16>)
    requires |g| == |e| == 5 && (forall i :: 0 <= i < 5 ==> -200 <= e[i] <= 200)
    ensures OneUnit(PitchNumerator(g, e), LMult(g[2], g[1]), e[2] + e[1], LMult(g[3], g[4]), e[3] + e[4] + 1)
    ensures -701 <= PitchNumerator(g, e).exponent <= 700
  {
    hide LMult, Difference, OneUnit;
    var e1, e2, e3, e4 := e[1], e[2], e[3], e[4];
    assert Add(e2, e1) as int == e2 + e1 && Add(Add(e3, e4), 1) as int == e3 + e4 + 1;
    Unit(LMult(g[2], g[1]), e2 + e1, LMult(g[3], g[4]), e3 + e4 + 1, 1);
  }

  lemma CodeUnit(g: seq<Word16>, e: seq<Word16>)
    requires |g| == |e| == 5 && (forall i :: 0 <= i < 5 ==> -200 <= e[i] <= 200)
    ensures OneUnit(CodeNumerator(g, e), LMult(g[0], g[3]), e[0] + e[3], LMult(g[1], g[4]), e[1] + e[4] + 1)
    ensures -701 <= CodeNumerator(g, e).exponent <= 700
  {
    hide LMult, Difference, OneUnit;
    var e0, e1, e3, e4 := e[0], e[1], e[3], e[4];
    assert Add(e0, e3) as int == e0 + e3 && Add(Add(e1, e4), 1) as int == e1 + e4 + 1;
    Unit(LMult(g[0], g[3]), e0 + e3, LMult(g[1], g[4]), e1 + e4 + 1, 1);
  }

  lemma PitchNear(g: seq<Word16>, e: seq<Word16>)
    requires |g| == |e| == 5 && Determinant(g, e).value > 0
    requires -701 <= Determinant(g, e).exponent <= 700 && -701 <= PitchNumerator(g, e).exponent <= 700
    ensures ShiftFits(PitchNumerator(g, e), Determinant(g, e), 24) ==>
      NearOptimum(BestPitchGain(g, e, false), PitchNumerator(g, e), Determinant(g, e), 24)
  {
    hide Determinant, PitchNumerator, Pow2, Shiftable, Optimum, Ratio, TwoTo, NormL, ShiftCount;
    if ShiftFits(PitchNumerator(g, e), Determinant(g, e), 24) {
      RatioNear(PitchNumerator(g, e), Determinant(g, e), 24);
    }
  }

  lemma CodeNear(g: seq<Word16>, e: seq<Word16>)
    requires |g| == |e| == 5 && Determinant(g, e).value > 0
    requires -701 <= Determinant(g, e).exponent <= 700 && -701 <= CodeNumerator(g, e).exponent <= 700
    ensures ShiftFits(CodeNumerator(g, e), Determinant(g, e), 17) ==>
      NearOptimum(BestCodeGain(g, e), CodeNumerator(g, e), Determinant(g, e), 17)
  {
    hide Determinant, CodeNumerator, Pow2, Shiftable, Optimum, Ratio, TwoTo, NormL, ShiftCount;
    if ShiftFits(CodeNumerator(g, e), Determinant(g, e), 17) {
      RatioNear(CodeNumerator(g, e), Determinant(g, e), 17);
    }
  }

  lemma Unit(x: Word32, m: Word16, y: Word32, n: Word16, guard: Word16)
    requires -700 <= m <= 700 && -700 <= n <= 700
    requires guard == 1 || (guard == 0 && x >= 0 && y >= 0)
    ensures OneUnit(Difference(x, m, y, n, guard), x, m, y, n)
    ensures -701 <= Difference(x, m, y, n, guard).exponent <= 700
  {
    DifferenceNear(x, m, y, n, guard);
    hide LShr, Times, Pow2, Exact;
  }

  lemma ProductSign(x: Word16, y: Word16)
    requires (x >= 0 && y >= 0) || x == y
    ensures LMult(x, y) >= 0
  {
    var a: int, b: int := x, y;
    if a >= 0 {
      MulMono(0, a, b);
    } else {
      MulMono(0, -a, -b);
      assert -a * -b == a * b;
    }
  }
}
