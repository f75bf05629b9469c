/** Split double precision (OPER_32B.C): a 32-bit word L is kept as hi and lo with
    L = hi * 2^16 + lo * 2.  The main results bound how far the products and the
    Newton division are from the exact quotients. */
module Oper32b {
  import opened BasicOp

  datatype Dpf = Dpf(hi: Word16, lo: Word16) {
    function Value(): int { hi * 0x1_0000 + lo * 2 }
  }

  function LExtract(x: Word32): Dpf {
    var hi := ExtractH(x);
    Dpf(hi, ExtractL(LMsu(LShr(x, 1), hi, 0x4000)))
  }

  function LComp(d: Dpf): Word32 { LMac(LDepositH(d.hi), d.lo, 1) }

  function Mpy32(x: Dpf, y: Dpf): Word32 {
    LMac(LMac(LMult(x.hi, y.hi), Mult(x.hi, y.lo), 1), Mult(x.lo, y.hi), 1)
  }

  function Mpy32By16(x: Dpf, n: Word16): Word32 {
    LMac(LMult(x.hi, n), Mult(x.lo, n), 1)
  }

  function Div32(num: Word32, denom: Dpf): Word32
    requires 0x3fff <= denom.hi
  {
    var approx := DivS(0x3fff, denom.hi);
    var residue := LSub(MAX_32, Mpy32By16(denom, approx));
    var inverse := Mpy32By16(LExtract(residue), approx);
    LShl(Mpy32(LExtract(num), LExtract(inverse)), 2)
  }

  /** Splitting a word only loses its lowest bit; the low part is never negative. */
  lemma ExtractDropsOneBit(x: Word32)
    ensures var d := LExtract(x);
      d.Value() == x - x % 2 && LComp(d) == x - x % 2 && 0 <= d.lo
  {
    var h, w := ExtractH(x), x % 0x1_0000 / 2;
    LowPartOf(x);
    hide LShr, LMsu, ExtractL;
    assert LExtract(x) == Dpf(h, w);
    JoinedParts(h, w);
  }

  // The low half of a word without its last bit.
  lemma LowPartOf(x: Word32)
    ensures ExtractL(LMsu(LShr(x, 1), ExtractH(x), 0x4000)) as int == x % 0x1_0000 / 2
    ensures 0x1_0000 * (ExtractH(x) as int) + 2 * (x % 0x1_0000 / 2) == x - x % 2
  {
    var h: int, w := x / 0x1_0000, x % 0x1_0000 / 2;
    assert TwoTo(1) == 2;
    DivUnique(x, 2, 0x8000 * h + w);
    assert LShr(x, 1) as int == 0x8000 * h + w;
    Wrap16Unique(w, w, 0);
    hide LShr, Wrap16;
  }

  lemma JoinedParts(h: Word16, w: Word16)
    requires 0 <= w
    ensures LComp(Dpf(h, w)) as int == 0x1_0000 * h + 2 * w
  {}

  /** Joining the two parts of a word already in split form gives them back. */
  lemma ExtractInvertsComp(d: Dpf)
    requires 0 <= d.lo
    ensures LExtract(LComp(d)) == d
  {
    ExtractDropsOneBit(LComp(d));
    var e := LExtract(LComp(d));
    assert e.hi * 0x8000 + e.lo == d.hi * 0x8000 + d.lo;
  }

  /** Mpy_32_16 is less than two units below the exact product / 2^15, unless it is -1 times -1. */
  lemma Mpy32By16Error(x: Dpf, n: Word16)
    requires 0 <= x.lo
    requires x.hi != MIN_16 || n != MIN_16
    ensures 0x8000 * Mpy32By16(x, n) <= x.Value() * n < 0x8000 * (Mpy32By16(x, n) + 2)
  {
    Mpy32By16Parts(x, n);
    assert x.Value() * n == 0x1_0000 * (x.hi * n) + 2 * (x.lo * n);
  }

  // Mpy_32_16 does not saturate, unless it is -1 times -1.
  lemma Mpy32By16Parts(x: Dpf, n: Word16)
    requires 0 <= x.lo
    requires x.hi != MIN_16 || n != MIN_16
    ensures Mpy32By16(x, n) == 2 * (x.hi * n) + 2 * ((x.lo * n) / 0x8000)
  {
    ProductBound(x.hi, n);
    ProductBound(x.lo, n);
    HalfProductFits(x.lo, n);
    HighProductBound(x.hi, n);
  }

  lemma HalfProductFits(x: Word16, n: Word16)
    requires 0 <= x
    ensures -0x7fff <= (x * n) / 0x8000 <= 0x7ffe
  {
    MulMono(n, 0x7fff, x);
    MulMono(-0x8000, n, x);
  }

  lemma HighProductBound(x: Word16, n: Word16)
    requires x != MIN_16 || n != MIN_16
    ensures -0x3fff_8000 <= x * n <= 0x3fff_8000
  {
    if Abs(x) <= 0x7fff {
      MulMono(Abs(x), 0x7fff, Abs(n));
      MulMono(Abs(n), 0x8000, 0x7fff);
    } else {
      MulMono(Abs(n), 0x7fff, Abs(x));
    }
  }

  /** Mpy_32 never saturates unless both high parts are -1, and is less than
      six units below the exact product / 2^31. */
  lemma Mpy32Error(x: Dpf, y: Dpf)
    requires 0 <= x.lo && 0 <= y.lo
    requires x.hi != MIN_16 || y.hi != MIN_16
    ensures 0 <= x.Value() * y.Value() - 0x8000_0000 * Mpy32(x, y) < 6 * 0x8000_0000
  {
    Mpy32By16Error(y, x.hi);
    var s, q := Mpy32By16(y, x.hi), (x.lo * y.hi) / 0x8000;
    ProductBound(x.hi, y.hi);
    ProductBound(x.hi, y.lo);
    HalfProductFits(x.lo, y.hi);
    HalfProductFits(y.lo, x.hi);
    HighProductBound(x.hi, y.hi);
    assert y.lo * x.hi == x.hi * y.lo && y.hi * x.hi == x.hi * y.hi;
    assert Mpy32(x, y) == Clamp32(s + 2 * q);
    SplitProduct(x, y, s, q);
    SumFits(x, y, s, q);
  }

  lemma SplitProduct(x: Dpf, y: Dpf, s: int, q: int)
    requires 0 <= x.lo && 0 <= y.lo
    requires s == 2 * (y.hi * x.hi) + 2 * ((y.lo * x.hi) / 0x8000)
    requires q == (x.lo * y.hi) / 0x8000
    ensures 0 <= x.Value() * y.Value() - 0x8000_0000 * (s + 2 * q) < 6 * 0x8000_0000
  {
    MulMono(x.lo, 0x7fff, y.lo);
    ProductSign(x.lo, y.lo);
    ExpandProduct(x.hi, x.lo, y.hi, y.lo);
    SplitLinear(y.hi * x.hi, y.lo * x.hi, x.lo * y.hi, x.lo * y.lo, x.Value() * y.Value());
  }

  lemma ExpandProduct(xh: int, xl: int, yh: int, yl: int)
    ensures (xh * 0x1_0000 + xl * 2) * (yh * 0x1_0000 + yl * 2)
         == 0x1_0000_0000 * (yh * xh) + 0x2_0000 * (yl * xh) + 0x2_0000 * (xl * yh) + 4 * (xl * yl)
  {
    var y := yh * 0x1_0000 + yl * 2;
    assert (xh * 0x1_0000 + xl * 2) * y == 0x1_0000 * (xh * y) + 2 * (xl * y);
    assert xh * y == 0x1_0000 * (yh * xh) + 2 * (yl * xh);
    assert xl * y == 0x1_0000 * (xl * yh) + 2 * (xl * yl);
  }

  lemma SplitLinear(hh: int, hl: int, lh: int, ll: int, product: int)
    requires 0 <= ll < 0x4000_0000
    requires product == 0x1_0000_0000 * hh + 0x2_0000 * hl + 0x2_0000 * lh + 4 * ll
    ensures 0 <= product - 0x8000_0000 * (2 * hh + 2 * (hl / 0x8000) + 2 * (lh / 0x8000)) < 6 * 0x8000_0000
  {}

  lemma SumFits(x: Dpf, y: Dpf, s: int, q: int)
    requires 0 <= x.lo && 0 <= y.lo && (x.hi != MIN_16 || y.hi != MIN_16)
    requires s == 2 * (y.hi * x.hi) + 2 * ((y.lo * x.hi) / 0x8000)
    requires q == (x.lo * y.hi) / 0x8000 && MIN_32 <= s <= MAX_32
    ensures MIN_32 <= s + 2 * q <= MAX_32
  {
    SplitProduct(x, y, s, q);
    SplitProductBound(x, y);
    HalfProductFits(x.lo, y.hi);
    HalfProductFits(y.lo, x.hi);
    HighProductBound(x.hi, y.hi);
    var hh := x.hi * y.hi;
    assert y.hi * x.hi == hh;
    if y.hi >= 0 {
      ProductSign(x.lo, y.hi);
    } else {
      ProductSign(y.hi, x.hi);
      ProductSign(y.lo, x.hi);
    }
  }

  lemma ProductSign(a: int, b: int)
    ensures a >= 0 && b >= 0 ==> a * b >= 0
    ensures a < 0 && b < 0 ==> a * b > 0
  {}

  lemma SplitProductBound(x: Dpf, y: Dpf)
    requires 0 <= x.lo && 0 <= y.lo && (x.hi != MIN_16 || y.hi != MIN_16)
    ensures x.Value() * y.Value() <= 0x8000_0000 * 0x7fff_fffe
  {
    var a, b := Abs(x.Value()), Abs(y.Value());
    if a <= 0x7fff_fffe {
      MulMono(a, 0x7fff_fffe, b);
      MulMono(b, 0x8000_0000, 0x7fff_fffe);
    } else {
      MulMono(b, 0x7fff_fffe, a);
      MulMono(a, 0x8000_0000, 0x7fff_fffe);
    }
    AbsProduct(x.Value(), y.Value());
  }

  lemma AbsProduct(a: int, b: int)
    ensures a * b <= Abs(a) * Abs(b)
  {
    if a < 0 && b < 0 {
      assert (-a) * (-b) == a * b;
    } else if a < 0 {
      assert (-a) * b == -(a * b);
    } else if b < 0 {
      assert a * (-b) == -(a * b);
    }
  }

  /** Div_32 meets its promised 24 bits (2^-24 of full scale is 2^7 units): for a
      normalised denominator the result is at most 8 units above and 80 units
      below num * 2^31 / denom. */
  lemma Div32Precision(num: Word32, denom: Dpf)
    requires 0x4000 <= denom.hi && 0 <= denom.lo
    requires 0 <= num <= denom.Value()
    ensures NearQuotient(Div32(num, denom), num, denom.Value())
  {
    var q := QuotientParts(num, denom);
    ClampedQuotient(denom.Value(), num, q * 4, Div32(num, denom));
  }

  ghost predicate NearQuotient(r: int, num: int, d: int) {
    -80 * d <= r * d - num * 0x8000_0000 <= 8 * d
  }

  lemma QuotientParts(num: Word32, denom: Dpf) returns (q: int)
    requires 0x4000 <= denom.hi && 0 <= denom.lo
    requires 0 <= num <= denom.Value()
    ensures NearQuotient(q * 4, num, denom.Value())
    ensures Div32(num, denom) == Clamp32(q * 4)
  {
    var a := DivS(0x3fff, denom.hi);
    ApproxReciprocal(denom, a);
    var p := Mpy32By16(denom, a);
    FirstProduct(denom, a, p);
    var inv := Mpy32By16(LExtract(MAX_32 - p), a);
    SecondProduct(denom.Value(), a, p, inv);
    q := Mpy32(LExtract(num), LExtract(inv));
    FinalProduct(denom.Value(), num, inv, q);
    UnfoldDiv32(num, denom, p, inv);
  }

  lemma UnfoldDiv32(num: Word32, denom: Dpf, p: Word32, inv: Word32)
    requires 0x4000 <= denom.hi && 0 <= p
    requires p == Mpy32By16(denom, DivS(0x3fff, denom.hi))
    requires inv == Mpy32By16(LExtract(MAX_32 - p), DivS(0x3fff, denom.hi))
    ensures var q: int := Mpy32(LExtract(num), LExtract(inv)); Div32(num, denom) == Clamp32(q * 4)
  {
    assert LSub(MAX_32, p) == MAX_32 - p;
    ShiftTwice(Mpy32(LExtract(num), LExtract(inv)));
  }

  lemma ShiftTwice(x: Word32)
    ensures var y: int := x; LShl(x, 2) == Clamp32(y * 4)
  {
    assert TwoTo(2) == 4;
  }

  lemma FirstProduct(denom: Dpf, a: Word16, p: Word32)
    requires 0x4000 <= denom.hi && 0 <= denom.lo && 0x3fff <= a && p == Mpy32By16(denom, a)
    ensures 0 <= p && 0x8000 * p <= denom.Value() * a < 0x8000 * (p + 2)
  {
    Mpy32By16Error(denom, a);
    MulMono(0x4000_0000, denom.Value(), a);
    MulMono(0x3fff, a, 0x4000_0000);
  }

  lemma SecondProduct(d: int, a: Word16, p: Word32, inv: Word32)
    requires 0x4000_0000 <= d < 0x8000_0000 && 0x3fff <= a <= 0x7ffe && 0 <= p
    requires 0x2000_0000_0000 - 0x1_0000_0000 < d * a < 0x2000_0000_0000
    requires 0x8000 * p <= d * a < 0x8000 * (p + 2)
    requires inv == Mpy32By16(LExtract(MAX_32 - p), a)
    ensures NearReciprocal(d, inv)
  {
    var n := LExtract(MAX_32 - p);
    ExtractDropsOneBit(MAX_32 - p);
    Mpy32By16Error(n, a);
    NewtonStep(d, a, p, n.Value(), inv);
  }

  lemma FinalProduct(d: int, num: Word32, inv: Word32, q: int)
    requires 0x4000_0000 <= d < 0x8000_0000 && 0 <= num <= d && NearReciprocal(d, inv)
    requires q == Mpy32(LExtract(num), LExtract(inv))
    ensures NearQuotient(q * 4, num, d)
  {
    ExtractDropsOneBit(inv);
    ExtractDropsOneBit(num);
    var x, y := LExtract(num), LExtract(inv);
    Mpy32Error(x, y);
    ScaledQuotient(d, num, x.Value(), inv, y.Value(), q);
  }

  ghost predicate NearReciprocal(d: int, inv: int) {
    && 0x1000_0000_0000_0000 - 0x4_0000_0000 - 4 * d <= d * inv <= 0x1000_0000_0000_0000 + 2 * d
    && 0x1fff_0000 <= inv <= 0x4000_0004
  }

  // The first approximation a makes d * a just less than 2^45: it is good to 13 bits.
  lemma ApproxReciprocal(denom: Dpf, a: int)
    requires 0x4000 <= denom.hi && 0 <= denom.lo && a == DivS(0x3fff, denom.hi)
    ensures 0x3fff <= a <= 0x7ffe
    ensures 0x2000_0000_0000 - 0x1_0000_0000 < denom.Value() * a < 0x2000_0000_0000
  {
    var h := denom.hi;
    var scaled := 0x3fff * 0x8000;
    DivBounds(scaled, h);
    var ha := h * a;
    assert ha <= scaled < ha + h;
    if a < 0x3fff { MulMono(a, 0x3ffe, h); assert false; }
    if a > 0x7ffe { MulMono(0x7fff, a, h); assert false; }
    assert denom.Value() * a == 0x1_0000 * ha + 2 * (denom.lo * a);
    MulMono(denom.lo, 0x7fff, a);
    assert 0 <= denom.lo * a;
  }

  // One Newton step squares the relative error.
  lemma NewtonStep(d: int, a: int, p: int, n: int, inv: int)
    requires 0x4000_0000 <= d < 0x8000_0000 && 0x3fff <= a <= 0x7ffe
    requires 0x2000_0000_0000 - 0x1_0000_0000 < d * a < 0x2000_0000_0000
    requires 0x8000 * p <= d * a < 0x8000 * (p + 2)
    requires MAX_32 - p - 1 <= n <= MAX_32 - p
    requires 0x8000 * inv <= n * a < 0x8000 * (inv + 2)
    ensures NearReciprocal(d, inv)
  {
    var x := d * a;
    var m := 0x4000_0000_0000 - x;
    assert m - 0x1_0000 <= 0x8000 * n <= m + 0x8000;
    ScaleThree(x, m - 0x1_0000, 0x8000 * n, m + 0x8000);
    assert x * (m - 0x1_0000) == x * m - 0x1_0000 * x;
    assert x * (m + 0x8000) == x * m + 0x8000 * x;
    assert x * (0x8000 * n) == 0x8000 * (x * n);
    assert x * n == d * (n * a);
    ScaleThree(d, 0x8000 * inv, n * a, 0x8000 * inv + 0x1_0000);
    assert d * (0x8000 * inv) == 0x8000 * (d * inv);
    assert d * (0x8000 * inv + 0x1_0000) == 0x8000 * (d * inv) + 0x1_0000 * d;
    MulMono(a, 0x7ffe, d);
    SquaredError(x);
    NewtonLinear(d, x, x * m, x * n, d * inv);
    InverseRange(d, inv);
  }

  lemma ScaleThree(k: int, a: int, b: int, c: int)
    requires k >= 0 && a <= b <= c
    ensures k * a <= k * b <= k * c
  {}

  // x (2^46 - x) = 2^90 - (2^45 - x)^2
  lemma SquaredError(x: int)
    requires 0x2000_0000_0000 - 0x1_0000_0000 < x < 0x2000_0000_0000
    ensures 0x2000_0000_0000 * 0x2000_0000_0000 - 0x1_0000_0000 * 0x1_0000_0000
         <= x * (0x4000_0000_0000 - x) <= 0x2000_0000_0000 * 0x2000_0000_0000
  {
    var e := 0x2000_0000_0000 - x;
    MulMono(e, 0x1_0000_0000, e);
    MulMono(e, 0x1_0000_0000, 0x1_0000_0000);
    DifferenceOfSquares(0x2000_0000_0000, e);
  }

  lemma DifferenceOfSquares(c: int, e: int)
    ensures (c - e) * (c + e) == c * c - e * e
  {}

  lemma NewtonLinear(d: int, x: int, xm: int, xn: int, dinv: int)
    requires 0 <= d && x <= 0x7ffe * d
    requires 0x400_0000_0000_0000_0000_0000 - 0x1_0000_0000_0000_0000 <= xm <= 0x400_0000_0000_0000_0000_0000
    requires xm - 0x1_0000 * x <= 0x8000 * xn <= xm + 0x8000 * x
    requires 0x8000 * dinv <= xn <= 0x8000 * dinv + 0x1_0000 * d
    ensures 0x1000_0000_0000_0000 - 0x4_0000_0000 - 4 * d <= dinv <= 0x1000_0000_0000_0000 + 2 * d
  {}

  lemma InverseRange(d: int, inv: int)
    requires 0x4000_0000 <= d < 0x8000_0000
    requires 0x1000_0000_0000_0000 - 0x4_0000_0000 - 4 * d <= d * inv <= 0x1000_0000_0000_0000 + 2 * d
    ensures 0x1fff_0000 <= inv <= 0x4000_0004
  {
    if inv > 0x4000_0004 {
      MulMono(0x4000_0005, inv, d);
      assert false;
    }
    if inv < 0x1fff_0000 {
      MulMono(inv, 0x1ffe_ffff, d);
      assert false;
    }
  }

  lemma ScaledQuotient(d: int, num: int, num': int, inv: int, inv': int, q: int)
    requires 0x4000_0000 <= d < 0x8000_0000 && 0 <= num <= d
    requires num - 1 <= num' <= num && 0 <= num'
    requires inv - 1 <= inv' <= inv && NearReciprocal(d, inv)
    requires 0 <= num' * inv' - 0x8000_0000 * q < 6 * 0x8000_0000
    ensures NearQuotient(q * 4, num, d)
  {
    var part := num' * inv';
    TruncatedProduct(num, num', inv, inv');
    ScaledParts(d, num, inv, part, q);
    ScaledInverse(d, num, inv);
    MulMono(num, 0x8000_0000, d);
    AssembleQuotient(d, num, inv, part, q);
  }

  lemma AssembleQuotient(d: int, num: int, inv: int, part: int, q: int)
    requires 0x4000_0000 <= d && 0 <= num <= d && 0 <= d * num <= 0x8000_0000 * d
    requires d * inv <= 0x1000_0000_0000_0000 + 2 * d
    requires d * (num * inv) - d * inv - d * num <= d * part <= d * (num * inv)
    requires 0 <= d * part - 0x8000_0000 * (d * q) <= 6 * 0x8000_0000 * d
    requires 0x1000_0000_0000_0000 * num - 0x4_0000_0000 * num - 4 * (d * num) <= d * (num * inv)
          <= 0x1000_0000_0000_0000 * num + 2 * (d * num)
    ensures NearQuotient(q * 4, num, d)
  {
    QuotientLinear(d, num, d * num, d * inv, d * (num * inv), d * part, d * q);
    Reorder(q, d);
  }

  lemma Reorder(q: int, d: int)
    ensures (q * 4) * d == 4 * (d * q)
  {}

  lemma ScaledParts(d: int, num: int, inv: int, part: int, q: int)
    requires 0 <= d && num * inv - inv - num <= part <= num * inv
    requires 0 <= part - 0x8000_0000 * q < 6 * 0x8000_0000
    ensures d * (num * inv) - d * inv - d * num <= d * part <= d * (num * inv)
    ensures 0 <= d * part - 0x8000_0000 * (d * q) <= 6 * 0x8000_0000 * d
  {
    var full, rest := num * inv, part - 0x8000_0000 * q;
    ScaleThree(d, full - inv - num, part, full);
    ScaleThree(d, 0, rest, 6 * 0x8000_0000);
    assert d * (full - inv - num) == d * full - d * inv - d * num;
    assert d * rest == d * part - 0x8000_0000 * (d * q);
  }

  lemma ScaledInverse(d: int, num: int, inv: int)
    requires 0 <= num && NearReciprocal(d, inv)
    ensures 0x1000_0000_0000_0000 * num - 0x4_0000_0000 * num - 4 * (d * num) <= d * (num * inv)
         <= 0x1000_0000_0000_0000 * num + 2 * (d * num)
  {
    var low, high := 0x1000_0000_0000_0000 - 0x4_0000_0000 - 4 * d, 0x1000_0000_0000_0000 + 2 * d;
    ScaleThree(num, low, d * inv, high);
    assert num * high == 0x1000_0000_0000_0000 * num + 2 * (d * num);
    assert num * low == 0x1000_0000_0000_0000 * num - 0x4_0000_0000 * num - 4 * (d * num);
    assert num * (d * inv) == d * (num * inv);
  }

  lemma TruncatedProduct(num: int, num': int, inv: int, inv': int)
    requires 0 <= num' && num - 1 <= num' <= num && 1 <= inv && inv - 1 <= inv' <= inv
    ensures num * inv - inv - num <= num' * inv' <= num * inv
  {
    MulMono(num', num, inv');
    MulMono(inv', inv, num);
    MulMono(num - 1, num', inv');
    MulMono(inv - 1, inv', num);
    assert (num - 1) * inv' == num * inv' - inv';
    assert num * (inv - 1) == num * inv - num;
  }

  lemma QuotientLinear(d: int, num: int, dnum: int, dinv: int, dfull: int, dpart: int, dq: int)
    requires 0x4000_0000 <= d && 0 <= num <= d && 0 <= dnum <= 0x8000_0000 * d
    requires dinv <= 0x1000_0000_0000_0000 + 2 * d
    requires dfull - dinv - dnum <= dpart <= dfull
    requires 0x1000_0000_0000_0000 * num - 0x4_0000_0000 * num - 4 * dnum <= dfull
          <= 0x1000_0000_0000_0000 * num + 2 * dnum
    requires 0 <= dpart - 0x8000_0000 * dq <= 6 * 0x8000_0000 * d
    ensures -80 * d <= 4 * dq - num * 0x8000_0000 <= 8 * d
  {}

  lemma ClampedQuotient(d: int, num: int, v: int, r: int)
    requires 0x4000_0000 <= d < 0x8000_0000 && 0 <= num <= d
    requires NearQuotient(v, num, d) && r == Clamp32(v)
    ensures NearQuotient(r, num, d)
  {
    if v > MAX_32 {
      MulMono(MAX_32, v, d);
      assert MAX_32 * d == 0x8000_0000 * d - d;
    } else if v < MIN_32 {
      MulMono(v, MIN_32, d);
    }
  }
}
