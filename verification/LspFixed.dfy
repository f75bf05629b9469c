/** Lsp_Az and Get_lsp_pol (LPCFUNC.C) in the fixed-point arithmetic of the source, measured against
    the exact polynomials of LspPoly. */
module LspFixed {
  import opened BasicOp
  import opened Oper32b
  import LspPoly

  // The scale 2^24 of the polynomial coefficients.
  const ONE: real := 16777216.0

  // 126 in Q24: far enough from the limits of 32 bits to absorb the rounding errors.
  const MODEST: real := 2113929216.0

  // The value of a Q15 word.
  function Cosine(lsp: Word16): real { lsp as real / 32768.0 }

  // f is within e units of g.
  ghost predicate Near(f: int, g: real, e: real) { -e <= f as real - g <= e }

  ghost predicate Modest(g: real) { -MODEST <= g <= MODEST }

  // ----- One step of the inner loop

  // Twice the product of a coefficient and a line spectral pair.
  function Twice(f: Word32, q: Word16): Word32 { LShl(Mpy32By16(LExtract(f), q), 1) }

  function InnerStep(f0: Word32, f1: Word32, f2: Word32, q: Word16): Word32 {
    LSub(LAdd(f0, f2), Twice(f1, q))
  }

  // The truncated product is at most 6 units below and 2 above the exact one.
  lemma TwiceError(f: Word32, q: Word16)
    requires -0x7fff_0000 <= f && -0x7f00_0000 * 0x4000 <= Product(f, q) <= 0x7f00_0000 * 0x4000
    ensures -6 * 0x4000 <= 0x4000 * (Twice(f, q) as int) - Product(f, q) <= 2 * 0x4000
  {
    hide LExtract, Mpy32By16;
    ExtractDropsOneBit(f);
    var d := LExtract(f);
    Mpy32By16Error(d, q);
    var m := Mpy32By16(d, q);
    var r := f % 2;
    assert d.Value() * q == Product(f, q) - r * q;
    assert TwoTo(1) == 2;
  }

  lemma RealProduct(f: int, q: Word16)
    ensures 32768.0 * (Cosine(q) * (f as real)) == Product(f, q) as real
  {
    assert (f * (q as int)) as real == (f as real) * (q as real);
  }

  lemma CosineRange(q: Word16)
    ensures -1.0 <= Cosine(q) <= 1.0
  {}

  lemma ScaledError(q: real, x: real, y: real, e: real)
    requires -1.0 <= q <= 1.0 && -e <= x - y <= e
    ensures -e <= q * x - q * y <= e
  {
    var d := x - y;
    assert q * x - q * y == q * d;
    Shrink(if q >= 0.0 then q else -q, if d >= 0.0 then d else -d, e);
    assert q * d == -q * -d;
  }

  lemma Shrink(q: real, d: real, e: real)
    requires 0.0 <= q <= 1.0 && 0.0 <= d <= e
    ensures 0.0 <= q * d <= e
  {
    assert q * d <= 1.0 * d;
  }

  lemma TwiceNear(f: Word32, q: Word16, g: real, e: real)
    requires 0.0 <= e <= 1000.0 && Near(f, g, e) && Modest(g) && Modest(2.0 * (Cosine(q) * g))
    ensures Near(Twice(f, q), 2.0 * (Cosine(q) * g), 2.0 * e + 6.0)
  {
    CosineRange(q);
    ScaledError(Cosine(q), f as real, g, e);
    RealProduct(f, q);
    TwiceBound(f, q, Product(f, q), Cosine(q) * (f as real), Cosine(q) * g, g, e);
  }

  lemma TwiceBound(f: Word32, q: Word16, p: int, x: real, y: real, g: real, e: real)
    requires 0.0 <= e <= 1000.0 && Near(f, g, e) && Modest(g) && Modest(2.0 * y)
    requires p == Product(f, q) && 32768.0 * x == p as real && -e <= x - y <= e
    ensures Near(Twice(f, q), 2.0 * y, 2.0 * e + 6.0)
  {
    hide Twice, Product, Cosine;
    InRange(p, 32768.0 * (MODEST / 2.0 + 1000.0), 0x7f00_0000 * 0x4000);
    InRange(f, MODEST + 1000.0, 0x7fff_0000);
    TwiceError(f, q);
    var t := Twice(f, q) as int;
    Rescaled(t, p);
  }

  lemma InRange(p: int, r: real, b: int)
    requires -r <= p as real <= r && r <= b as real
    ensures -b <= p <= b
  {}

  lemma Rescaled(t: int, p: int)
    requires -6 * 0x4000 <= 0x4000 * t - p <= 2 * 0x4000
    ensures -6.0 <= t as real - p as real / 16384.0 <= 2.0
  {
    assert (0x4000 * t - p) as real == 16384.0 * (t as real) - p as real;
  }

  /** One step multiplies the error by four at most and adds six units. */
  lemma StepNear(f0: Word32, f1: Word32, f2: Word32, q: Word16, g0: real, g1: real, g2: real, e: real)
    requires 0.0 <= e <= 1000.0 && Near(f0, g0, e) && Near(f1, g1, e) && Near(f2, g2, e)
    requires Modest(g1) && Modest(g0 + g2) && Modest(2.0 * (Cosine(q) * g1))
    requires Modest(g0 + g2 - 2.0 * (Cosine(q) * g1))
    ensures Near(InnerStep(f0, f1, f2, q), g0 + g2 - 2.0 * (Cosine(q) * g1), 4.0 * e + 6.0)
  {
    TwiceNear(f1, q, g1, e);
    Sums(f0, f2, Twice(f1, q), g0, g2, 2.0 * (Cosine(q) * g1), e);
  }

  lemma NearSame(f: int, g: real, e: real, h: real, d: real)
    requires Near(f, g, e) && g == h && e == d
    ensures Near(f, h, d)
  {}

  // The two saturating operators are exact when their sums fit.
  lemma Sums(f0: Word32, f2: Word32, t: Word32, g0: real, g2: real, y: real, e: real)
    requires 0.0 <= e <= 1000.0 && Near(f0, g0, e) && Near(f2, g2, e) && Near(t, y, 2.0 * e + 6.0)
    requires Modest(g0 + g2) && Modest(g0 + g2 - y)
    ensures Near(LSub(LAdd(f0, f2), t), g0 + g2 - y, 4.0 * e + 6.0)
  {
    InRange(f0 + f2, MODEST + 2000.0, MAX_32);
    InRange(f0 + f2 - t, MODEST + 5000.0, MAX_32);
  }

  // ----- Get_lsp_pol

  // The exact line spectral pairs.
  function Cosines(lsp: seq<Word16>): (q: seq<real>)
    ensures |q| == |lsp|
    ensures forall i :: 0 <= i < |q| ==> q[i] == Cosine(lsp[i])
  {
    seq(|lsp|, i requires 0 <= i < |lsp| => Cosine(lsp[i]))
  }

  // The exact coefficient n of the product of k factors, in Q24.
  ghost function Exact(lsp: seq<Word16>, off: nat, k: nat, n: int): real
    requires k > 0 ==> off + 2 * (k - 1) < |lsp|
  {
    ONE * LspPoly.Coef(Cosines(lsp), off, k, n)
  }

  // Every term that enters coefficient n of the product of k factors is at most 126.
  ghost predicate TameTerms(lsp: seq<Word16>, off: nat, k: nat, n: int)
    requires k > 0 && off + 2 * (k - 1) < |lsp|
  {
    var q := Cosine(lsp[off + 2 * (k - 1)]);
    var g0, g1, g2 := Exact(lsp, off, k - 1, n), Exact(lsp, off, k - 1, n - 1), Exact(lsp, off, k - 1, n - 2);
    Modest(g1) && Modest(g0 + g2) && Modest(2.0 * (q * g1)) && Modest(Exact(lsp, off, k, n))
  }

  ghost predicate Tame(lsp: seq<Word16>, off: nat, k: nat)
    requires k > 0 ==> off + 2 * (k - 1) < |lsp|
  {
    forall j, n :: 1 <= j <= k && 1 <= n <= j ==> TameTerms(lsp, off, j, n)
  }

  // The error after k factors: 0, 6, 30, 126 and 510 units.
  function Err(k: nat): (e: real)
    requires 1 <= k <= 5
    ensures 0.0 <= e <= 510.0
    ensures k < 5 ==> e <= 126.0
    ensures k < 4 ==> e <= 30.0
    ensures k < 3 ==> e <= 6.0
    ensures k == 1 ==> e == 0.0
  {
    if k == 1 then 0.0 else 4.0 * Err(k - 1) + 6.0
  }

  lemma ErrStep(k: nat)
    requires 2 <= k <= 5
    ensures Err(k) == 4.0 * Err(k - 1) + 6.0
  {}

  ghost predicate NearHalf(f: seq<Word32>, lsp: seq<Word16>, off: nat, k: nat)
    requires 1 <= k <= 5 && off + 2 * (k - 1) < |lsp|
    requires k < |f|
  {
    forall n :: 0 <= n <= k ==> Near(f[n], Exact(lsp, off, k, n), Err(k))
  }

  lemma ExactStep(lsp: seq<Word16>, off: nat, k: nat, n: int)
    requires k > 0 && off + 2 * (k - 1) < |lsp|
    ensures var q := Cosine(lsp[off + 2 * (k - 1)]);
      Exact(lsp, off, k, n)
      == Exact(lsp, off, k - 1, n) + Exact(lsp, off, k - 1, n - 2) - 2.0 * (q * Exact(lsp, off, k - 1, n - 1))
  {
    hide LspPoly.Coef, Cosine;
    LspPoly.CoefStep(Cosines(lsp), off, k, n);
    ScaledFactor(Cosine(lsp[off + 2 * (k - 1)]), LspPoly.Coef(Cosines(lsp), off, k - 1, n),
                 LspPoly.Coef(Cosines(lsp), off, k - 1, n - 1), LspPoly.Coef(Cosines(lsp), off, k - 1, n - 2));
  }

  lemma ScaledFactor(q: real, c0: real, c1: real, c2: real)
    ensures ONE * LspPoly.OneFactor(q, c0, c1, c2) == ONE * c0 + ONE * c2 - 2.0 * (q * (ONE * c1))
  {
    assert 2.0 * q * c1 == 2.0 * (q * c1);
    assert q * (ONE * c1) == ONE * (q * c1);
  }

  lemma ExactEnds(lsp: seq<Word16>, off: nat, k: nat)
    requires k > 0 ==> off + 2 * (k - 1) < |lsp|
    ensures Exact(lsp, off, k, 0) == ONE
    ensures Exact(lsp, off, k, -1) == 0.0
    ensures forall n :: Exact(lsp, off, k, n) == Exact(lsp, off, k, 2 * k - n)
  {
    hide LspPoly.Coef;
    forall n ensures Exact(lsp, off, k, n) == Exact(lsp, off, k, 2 * k - n) {
      LspPoly.Palindrome(Cosines(lsp), off, k, n);
    }
    LspPoly.Palindrome(Cosines(lsp), off, k, 0);
    LspPoly.Palindrome(Cosines(lsp), off, k, -1);
  }

  // The second coefficient is updated without a product: 512 * 2 units are 2^24 / 2^15 * 2.
  lemma SecondNear(f: Word32, q: Word16, g: real, e: real)
    requires 0.0 <= e <= 1000.0 && Near(f, g, e) && Modest(g - 2.0 * (Cosine(q) * ONE))
    ensures Near(LMsu(f, q, 512), g - 2.0 * (Cosine(q) * ONE), e)
  {
    assert LMult(q, 512) == 1024 * q;
    assert 2.0 * (Cosine(q) * ONE) == (1024 * q) as real;
    InRange(f - 1024 * q, MODEST + 1000.0, MAX_32);
  }

  /** Get_lsp_pol in Q24: within Err of the exact product after every factor. */
  method GetLspPol(lsp: seq<Word16>, off: nat, f: array<Word32>)
    requires 2 <= f.Length <= 6 && off + 2 * (f.Length - 2) < |lsp|
    requires Tame(lsp, off, f.Length - 1)
    modifies f
    ensures NearHalf(f[..], lsp, off, f.Length - 1)
  {
    f[0] := LMult(4096, 2048);
    f[1] := LMsu(0, lsp[off], 512);
    FirstNear(lsp, off, f[0], f[1]);
    for i := 2 to f.Length
      invariant NearHalf(f[..], lsp, off, i - 1)
    {
      AddFactor(lsp, off, f, i);
    }
  }

  lemma FirstNear(lsp: seq<Word16>, off: nat, f0: Word32, f1: Word32)
    requires off < |lsp| && TameTerms(lsp, off, 1, 1)
    requires f0 == LMult(4096, 2048) && f1 == LMsu(0, lsp[off], 512)
    ensures Near(f0, Exact(lsp, off, 1, 0), 0.0) && Near(f1, Exact(lsp, off, 1, 1), 0.0)
  {
    hide Exact, Cosine;
    ExactEnds(lsp, off, 0);
    ExactEnds(lsp, off, 1);
    ExactStep(lsp, off, 1, 1);
    assert Exact(lsp, off, 0, 1) == Exact(lsp, off, 0, -1);
    SecondNear(0, lsp[off], 0.0, 0.0);
  }

  method AddFactor(lsp: seq<Word16>, off: nat, f: array<Word32>, i: nat)
    requires 2 <= i < f.Length <= 6 && off + 2 * (i - 1) < |lsp|
    requires forall n :: 1 <= n <= i ==> TameTerms(lsp, off, i, n)
    requires NearHalf(f[..], lsp, off, i - 1)
    modifies f
    ensures NearHalf(f[..], lsp, off, i)
  {
    hide Exact, Cosine, Near, InnerStep, Twice, Err, Modest;
    var q := lsp[off + 2 * (i - 1)];
    f[i] := f[i - 2];
    ExactEnds(lsp, off, i - 1);
    var p := i;
    while p > 1
      invariant 1 <= p <= i
      invariant forall n :: 0 <= n <= p ==> Near(f[n], Exact(lsp, off, i - 1, n), Err(i - 1))
      invariant forall n :: p < n <= i ==> Near(f[n], Exact(lsp, off, i, n), Err(i))
    {
      InnerNear(lsp, off, i, p, f[p], f[p - 1], f[p - 2]);
      var t0 := Mpy32By16(LExtract(f[p - 1]), q);
      t0 := LShl(t0, 1);
      f[p] := LAdd(f[p], f[p - 2]);
      f[p] := LSub(f[p], t0);
      p := p - 1;
    }
    EndNear(lsp, off, i, f[0], f[1]);
    f[1] := LMsu(f[1], q, 512);
  }

  lemma InnerNear(lsp: seq<Word16>, off: nat, i: nat, p: nat, f0: Word32, f1: Word32, f2: Word32)
    requires 2 <= p <= i <= 5 && off + 2 * (i - 1) < |lsp| && TameTerms(lsp, off, i, p)
    requires Near(f0, Exact(lsp, off, i - 1, p), Err(i - 1)) && Near(f1, Exact(lsp, off, i - 1, p - 1), Err(i - 1))
    requires Near(f2, Exact(lsp, off, i - 1, p - 2), Err(i - 1))
    ensures var q := lsp[off + 2 * (i - 1)];
      Near(LSub(LAdd(f0, f2), LShl(Mpy32By16(LExtract(f1), q), 1)), Exact(lsp, off, i, p), Err(i))
  {
    hide Exact, Cosine, Near, Err, LAdd, LSub, LShl, Mpy32By16, LExtract;
    ErrStep(i);
    ExactStep(lsp, off, i, p);
    var q := lsp[off + 2 * (i - 1)];
    var g0, g1, g2 := Exact(lsp, off, i - 1, p), Exact(lsp, off, i - 1, p - 1), Exact(lsp, off, i - 1, p - 2);
    StepNear(f0, f1, f2, q, g0, g1, g2, Err(i - 1));
    NearSame(InnerStep(f0, f1, f2, q), g0 + g2 - 2.0 * (Cosine(q) * g1), 4.0 * Err(i - 1) + 6.0,
             Exact(lsp, off, i, p), Err(i));
  }

  lemma EndNear(lsp: seq<Word16>, off: nat, i: nat, f0: Word32, f1: Word32)
    requires 2 <= i <= 5 && off + 2 * (i - 1) < |lsp| && TameTerms(lsp, off, i, 1)
    requires Near(f0, Exact(lsp, off, i - 1, 0), Err(i - 1)) && Near(f1, Exact(lsp, off, i - 1, 1), Err(i - 1))
    ensures Near(f0, Exact(lsp, off, i, 0), Err(i))
    ensures Near(LMsu(f1, lsp[off + 2 * (i - 1)], 512), Exact(lsp, off, i, 1), Err(i))
  {
    hide Exact, Cosine, LMsu;
    ExactEnds(lsp, off, i - 1);
    ExactEnds(lsp, off, i);
    ExactStep(lsp, off, i, 1);
    SecondNear(f1, lsp[off + 2 * (i - 1)], Exact(lsp, off, i - 1, 1), Err(i - 1));
  }

  // ----- Lsp_Az

  // Coefficient i of the exact prediction filter.
  ghost function Predictor(lsp: seq<Word16>, n: nat, i: int): real
    requires 1 <= n && |lsp| == 2 * n
  {
    LspPoly.HalfCoef(Cosines(lsp), n, i)
  }

  // The exact coefficients have a place in Q12.
  ghost predicate InQ12(lsp: seq<Word16>, n: nat)
    requires 1 <= n && |lsp| == 2 * n
  {
    forall i :: 1 <= i <= 2 * n ==> -7.99 <= Predictor(lsp, n, i) <= 7.99
  }

  // The raised polynomials are sums and differences of mirrored coefficients.
  lemma MirroredSums(lsp: seq<Word16>, n: nat, i: nat)
    requires 1 <= i <= n && |lsp| == 2 * n
    ensures Exact(lsp, 0, n, i) + Exact(lsp, 0, n, i - 1)
        == ONE * (Predictor(lsp, n, i) + Predictor(lsp, n, 2 * n + 1 - i))
    ensures Exact(lsp, 1, n, i) - Exact(lsp, 1, n, i - 1)
        == ONE * (Predictor(lsp, n, i) - Predictor(lsp, n, 2 * n + 1 - i))
  {
    hide LspPoly.Coef;
    var c := Cosines(lsp);
    LspPoly.Palindrome(c, 0, n, i);
    LspPoly.Palindrome(c, 0, n, i - 1);
    LspPoly.Palindrome(c, 1, n, i);
    LspPoly.Palindrome(c, 1, n, i - 1);
  }

  // Rounding from Q24 to Q12 with a factor of one half.
  lemma RoundedShift(t: Word32)
    requires -0x0fff_0000 <= t <= 0x0fff_0000
    ensures -4096 <= 8192 * ExtractL(LShrR(t, 13)) - t <= 4096
  {
    assert TwoTo(8) == 256 && TwoTo(4) == 16 && TwoTo(5) == 32;
    TwoToSum(8, 4);
    TwoToSum(8, 5);
    var r := LShrR(t, 13);
    assert -4096 <= 8192 * r - t <= 4096;
    Wrap16Unique(r, r, 0);
  }

  ghost predicate NearRaised(f1: Word32, f2: Word32, lsp: seq<Word16>, n: nat, i: nat)
    requires 1 <= i <= n && |lsp| == 2 * n
  {
    Near(f1, ONE * (Predictor(lsp, n, i) + Predictor(lsp, n, 2 * n + 1 - i)), 1020.0) &&
    Near(f2, ONE * (Predictor(lsp, n, i) - Predictor(lsp, n, 2 * n + 1 - i)), 1020.0)
  }

  lemma RaiseNear(lsp: seq<Word16>, n: nat, i: nat, f: seq<Word32>, g: seq<Word32>)
    requires 1 <= i <= n <= 5 && |lsp| == 2 * n && InQ12(lsp, n) && |f| == |g| == n + 1
    requires NearHalf(f, lsp, 0, n) && NearHalf(g, lsp, 1, n)
    ensures NearRaised(LAdd(f[i], f[i - 1]), LSub(g[i], g[i - 1]), lsp, n, i)
  {
    hide Exact, Predictor;
    MirroredSums(lsp, n, i);
    var a, b := Predictor(lsp, n, i), Predictor(lsp, n, 2 * n + 1 - i);
    assert -7.99 <= a <= 7.99 && -7.99 <= b <= 7.99;
    InRange(f[i] + f[i - 1], ONE * 16.0 + 1020.0, MAX_32);
    InRange(g[i] - g[i - 1], ONE * 16.0 + 1020.0, MAX_32);
  }

  lemma CombineNear(lsp: seq<Word16>, n: nat, i: nat, f1: Word32, f2: Word32)
    requires 1 <= i <= n <= 5 && |lsp| == 2 * n && InQ12(lsp, n) && NearRaised(f1, f2, lsp, n, i)
    ensures Near(ExtractL(LShrR(LAdd(f1, f2), 13)), 4096.0 * Predictor(lsp, n, i), 0.75)
    ensures Near(ExtractL(LShrR(LSub(f1, f2), 13)), 4096.0 * Predictor(lsp, n, 2 * n + 1 - i), 0.75)
  {
    hide Predictor, ExtractL, LShrR;
    var a, b := Predictor(lsp, n, i), Predictor(lsp, n, 2 * n + 1 - i);
    assert -7.99 <= a <= 7.99 && -7.99 <= b <= 7.99;
    InRange(f1 + f2, 2.0 * ONE * 7.99 + 2040.0, 0x0fff_0000);
    InRange(f1 - f2, 2.0 * ONE * 7.99 + 2040.0, 0x0fff_0000);
    RoundedNear(f1 + f2, a);
    RoundedNear(f1 - f2, b);
  }

  lemma RoundedNear(t: Word32, a: real)
    requires -0x0fff_0000 <= t <= 0x0fff_0000 && Near(t, 2.0 * ONE * a, 2040.0)
    ensures Near(ExtractL(LShrR(t, 13)), 4096.0 * a, 0.75)
  {
    hide ExtractL, LShrR;
    RoundedShift(t);
    var w := ExtractL(LShrR(t, 13)) as int;
    assert (8192 * w - t) as real == 8192.0 * (w as real) - t as real;
  }

  method Raise(lsp: seq<Word16>, n: nat, f1: array<Word32>, f2: array<Word32>)
    requires 1 <= n <= 5 && |lsp| == 2 * n && InQ12(lsp, n) && f1 != f2 && f1.Length == f2.Length == n + 1
    requires NearHalf(f1[..], lsp, 0, n) && NearHalf(f2[..], lsp, 1, n)
    modifies f1, f2
    ensures forall k :: 1 <= k <= n ==> NearRaised(f1[k], f2[k], lsp, n, k)
  {
    hide InQ12, NearHalf, NearRaised, LAdd, LSub;
    ghost var h1, h2 := f1[..], f2[..];
    var i := n;
    while i > 0
      invariant 0 <= i <= n
      invariant forall k :: 0 <= k <= i ==> f1[k] == h1[k] && f2[k] == h2[k]
      invariant forall k :: i < k <= n ==> NearRaised(f1[k], f2[k], lsp, n, k)
    {
      RaiseNear(lsp, n, i, h1, h2);
      f1[i] := LAdd(f1[i], f1[i - 1]);
      f2[i] := LSub(f2[i], f2[i - 1]);
      i := i - 1;
    }
  }

  method Combine(lsp: seq<Word16>, n: nat, f1: array<Word32>, f2: array<Word32>) returns (a: array<Word16>)
    requires 1 <= n <= 5 && |lsp| == 2 * n && InQ12(lsp, n) && f1.Length == f2.Length == n + 1
    requires forall k :: 1 <= k <= n ==> NearRaised(f1[k], f2[k], lsp, n, k)
    ensures fresh(a) && a.Length == 2 * n + 1 && a[0] == 4096
    ensures forall i :: 1 <= i <= 2 * n ==> Near(a[i], 4096.0 * Predictor(lsp, n, i), 0.75)
  {
    hide InQ12, Near, NearRaised, Predictor, LShrR, ExtractL, LAdd, LSub;
    a := new Word16[2 * n + 1];
    a[0] := 4096;
    var i, j := 1, 2 * n;
    while i <= n
      invariant 1 <= i <= n + 1 && i + j == 2 * n + 1
      invariant a[0] == 4096
      invariant forall k :: 1 <= k < i ==> Near(a[k], 4096.0 * Predictor(lsp, n, k), 0.75)
      invariant forall k :: j < k <= 2 * n ==> Near(a[k], 4096.0 * Predictor(lsp, n, k), 0.75)
    {
      CombineNear(lsp, n, i, f1[i], f2[i]);
      var t0 := LAdd(f1[i], f2[i]);
      a[i] := ExtractL(LShrR(t0, 13));
      t0 := LSub(f1[i], f2[i]);
      a[j] := ExtractL(LShrR(t0, 13));
      i, j := i + 1, j - 1;
    }
  }

  /** Lsp_Az in fixed point: the exact polynomial of LspPoly to three quarters of the last place of Q12. */
  method LspAz(lsp: seq<Word16>, n: nat) returns (a: array<Word16>)
    requires 1 <= n <= 5 && |lsp| == 2 * n
    requires Tame(lsp, 0, n) && Tame(lsp, 1, n) && InQ12(lsp, n)
    ensures a.Length == 2 * n + 1 && a[0] == 4096
    ensures forall i :: 1 <= i <= 2 * n ==> Near(a[i], 4096.0 * Predictor(lsp, n, i), 0.75)
  {
    hide Tame, InQ12, Near, NearHalf, NearRaised, Predictor;
    var f1, f2 := new Word32[n + 1], new Word32[n + 1];
    GetLspPol(lsp, 0, f1);
    GetLspPol(lsp, 1, f2);
    Raise(lsp, n, f1, f2);
    a := Combine(lsp, n, f1, f2);
  }

  // ----- The sum and difference polynomials of Az_lsp

  predicate Is16(x: int) { MIN_16 <= x <= MAX_16 }

  // (a + b) / s and (a - b) / s, rounded down, as the coder gets them from the high half of a 32-bit sum.
  function Average(a: Word16, b: Word16, s: int): int
    requires s > 0
  {
    (a + b) / s
  }

  function HalfGap(a: Word16, b: Word16, s: int): int
    requires s > 0
  {
    (a - b) / s
  }

  lemma AverageFits(a: Word16, b: Word16, s: int)
    requires s >= 2
    ensures Is16(Average(a, b, s)) && Is16(HalfGap(a, b, s))
    ensures AverageWord(a, b, s) as int == Average(a, b, s) && HalfGapWord(a, b, s) as int == HalfGap(a, b, s)
  {
    HalvesFit(a + b, s);
    HalvesFit(a - b, s);
  }

  lemma HalvesFit(t: int, s: int)
    requires s >= 2 && -0x1_0000 <= t <= 0xffff
    ensures Is16(t / s)
  {
    DivBounds(t, s);
    var q := t / s;
    if q >= 0x8000 { MulMono(0x8000, q, s); } else if q < -0x8000 { MulMono(q + 1, -0x8000, s); }
  }

  // The same as 16-bit words.
  function AverageWord(a: Word16, b: Word16, s: int): Word16
    requires s >= 2
  {
    HalvesFit(a + b, s);
    Average(a, b, s)
  }

  function HalfGapWord(a: Word16, b: Word16, s: int): Word16
    requires s >= 2
  {
    HalvesFit(a - b, s);
    HalfGap(a, b, s)
  }

  function Start(s: int): Word16
    requires s >= 2
  {
    DivBounds(4096, s);
    HalvesFit(4096, s);
    4096 / s
  }

  // The two recurrences without the limits of 16 bits, at Q11 for s == 2 and Q10 for s == 4.
  function SumWord(a: seq<Word16>, n: nat, s: int, m: nat): int
    requires |a| == 2 * n + 1 && m <= n && s > 0
  {
    if m == 0 then 4096 / s else Average(a[m], a[2 * n + 1 - m], s) - SumWord(a, n, s, m - 1)
  }

  function DifferenceWord(a: seq<Word16>, n: nat, s: int, m: nat): int
    requires |a| == 2 * n + 1 && m <= n && s > 0
  {
    if m == 0 then 4096 / s else HalfGap(a[m], a[2 * n + 1 - m], s) + DifferenceWord(a, n, s, m - 1)
  }

  // Both recurrences stay in 16 bits up to term m.
  predicate FitsTo(a: seq<Word16>, n: nat, s: int, m: nat)
    requires |a| == 2 * n + 1 && m <= n && s > 0
  {
    (m > 0 ==> FitsTo(a, n, s, m - 1)) && Is16(SumWord(a, n, s, m)) && Is16(DifferenceWord(a, n, s, m))
  }

  // The recurrences with the saturating operators.
  function SumAt(a: seq<Word16>, n: nat, s: int, m: nat): Word16
    requires |a| == 2 * n + 1 && m <= n && s >= 2
  {
    if m == 0 then Start(s) else Sub(AverageWord(a[m], a[2 * n + 1 - m], s), SumAt(a, n, s, m - 1))
  }

  function DifferenceAt(a: seq<Word16>, n: nat, s: int, m: nat): Word16
    requires |a| == 2 * n + 1 && m <= n && s >= 2
  {
    if m == 0 then Start(s) else Add(HalfGapWord(a[m], a[2 * n + 1 - m], s), DifferenceAt(a, n, s, m - 1))
  }

  /** They are the exact ones as long as these stay in 16 bits. */
  lemma {:induction false} FitsExactly(a: seq<Word16>, n: nat, s: int, m: nat)
    requires |a| == 2 * n + 1 && m <= n && s >= 2 && FitsTo(a, n, s, m)
    ensures SumAt(a, n, s, m) as int == SumWord(a, n, s, m)
    ensures DifferenceAt(a, n, s, m) as int == DifferenceWord(a, n, s, m)
  {
    hide Average, HalfGap, AverageWord, HalfGapWord;
    if m > 0 {
      FitsExactly(a, n, s, m - 1);
      AverageFits(a[m], a[2 * n + 1 - m], s);
    }
  }

  // One term: the flag stays clear exactly when both operators are exact.
  lemma FitsStep(a: seq<Word16>, n: nat, s: int, m: nat)
    requires |a| == 2 * n + 1 && 1 <= m <= n && s >= 2 && FitsTo(a, n, s, m - 1)
    ensures FitsTo(a, n, s, m)
       <==> && SumAt(a, n, s, m) as int == Average(a[m], a[2 * n + 1 - m], s) - SumAt(a, n, s, m - 1)
            && DifferenceAt(a, n, s, m) as int == HalfGap(a[m], a[2 * n + 1 - m], s) + DifferenceAt(a, n, s, m - 1)
  {
    hide Average, HalfGap, AverageWord, HalfGapWord;
    FitsExactly(a, n, s, m - 1);
    AverageFits(a[m], a[2 * n + 1 - m], s);
  }

  // The 32-bit sums never overflow; w is 16384 or 8192.
  lemma AverageWords(a: Word16, b: Word16, w: Word16, s: int)
    requires (w == 16384 && s == 2) || (w == 8192 && s == 4)
    ensures LMac(LMult(a, w), b, w) == LMult(a, w) + LMult(b, w)
    ensures LMsu(LMult(a, w), b, w) == LMult(a, w) - LMult(b, w)
    ensures ExtractH(LMac(LMult(a, w), b, w)) == Average(a, b, s)
    ensures ExtractH(LMsu(LMult(a, w), b, w)) == HalfGap(a, b, s)
  {
    assert LMult(a, w) == 2 * w * a && LMult(b, w) == 2 * w * b;
    HighHalf(a + b, 2 * w, s);
    HighHalf(a - b, 2 * w, s);
  }

  lemma HighHalf(t: int, w: int, s: int)
    requires (w == 32768 && s == 2) || (w == 16384 && s == 4)
    ensures (w * t) / 0x1_0000 == t / s
  {
    DivBounds(t, s);
    DivUnique(w * t, 0x1_0000, t / s);
  }

  /** One pass of the two recurrences.  The overflow flag is set exactly when one of them leaves
      16 bits; the words are those of the saturating recurrences in any case. */
  method SumAndDifference(a: seq<Word16>, n: nat, w: Word16, ghost s: int, f1: array<Word16>, f2: array<Word16>)
    returns (overflow: bool)
    requires |a| == 2 * n + 1 && f1 != f2 && f1.Length == f2.Length == n + 1
    requires (w == 16384 && s == 2) || (w == 8192 && s == 4)
    requires f1[0] == f2[0] == Start(s)
    modifies f1, f2
    ensures overflow <==> !FitsTo(a, n, s, n)
    ensures forall m :: 0 <= m <= n ==> f1[m] == SumAt(a, n, s, m) && f2[m] == DifferenceAt(a, n, s, m)
  {
    hide Average, HalfGap, AverageWord, HalfGapWord, ExtractH, LMac, LMsu, LMult, Sub, Add, FitsTo, SumAt,
      DifferenceAt, Start;
    overflow := false;
    FirstTerm(a, n, s);
    for i := 0 to n
      invariant overflow <==> !FitsTo(a, n, s, i)
      invariant forall m :: 0 <= m <= i ==> f1[m] == SumAt(a, n, s, m) && f2[m] == DifferenceAt(a, n, s, m)
    {
      AverageWords(a[i + 1], a[2 * n - i], w, s);
      NextTerm(a, n, s, i + 1);
      var x := ExtractH(LMac(LMult(a[i + 1], w), a[2 * n - i], w));
      f1[i + 1] := Sub(x, f1[i]);
      overflow := overflow || f1[i + 1] as int != x as int - f1[i];
      x := ExtractH(LMsu(LMult(a[i + 1], w), a[2 * n - i], w));
      f2[i + 1] := Add(x, f2[i]);
      overflow := overflow || f2[i + 1] as int != x as int + f2[i];
    }
  }

  lemma FirstTerm(a: seq<Word16>, n: nat, s: int)
    requires |a| == 2 * n + 1 && s >= 2
    ensures FitsTo(a, n, s, 0) && SumAt(a, n, s, 0) == DifferenceAt(a, n, s, 0) == Start(s)
  {
    HalvesFit(4096, s);
  }

  // What the loop needs of one term.
  lemma NextTerm(a: seq<Word16>, n: nat, s: int, m: nat)
    requires |a| == 2 * n + 1 && 1 <= m <= n && s >= 2
    ensures var x, y := Average(a[m], a[2 * n + 1 - m], s), HalfGap(a[m], a[2 * n + 1 - m], s);
      && Is16(x) && Is16(y)
      && SumAt(a, n, s, m) == Sub(x, SumAt(a, n, s, m - 1))
      && DifferenceAt(a, n, s, m) == Add(y, DifferenceAt(a, n, s, m - 1))
      && (FitsTo(a, n, s, m) <==>
            && FitsTo(a, n, s, m - 1)
            && SumAt(a, n, s, m) as int == x - SumAt(a, n, s, m - 1)
            && DifferenceAt(a, n, s, m) as int == y + DifferenceAt(a, n, s, m - 1))
  {
    hide Average, HalfGap, AverageWord, HalfGapWord, Sub, Add;
    AverageFits(a[m], a[2 * n + 1 - m], s);
    if FitsTo(a, n, s, m - 1) { FitsStep(a, n, s, m); }
  }

  /** The start of Az_lsp: Q11, or Q10 when that overflows. */
  method Polynomials(a: seq<Word16>, n: nat, f1: array<Word16>, f2: array<Word16>) returns (coarse: bool)
    requires |a| == 2 * n + 1 && f1 != f2 && f1.Length == f2.Length == n + 1
    modifies f1, f2
    ensures coarse <==> !FitsTo(a, n, 2, n)
    ensures var s := if coarse then 4 else 2;
      forall m :: 0 <= m <= n ==>
        && f1[m] == SumAt(a, n, s, m) && f2[m] == DifferenceAt(a, n, s, m)
        && (FitsTo(a, n, s, m) ==>
              f1[m] as int == SumWord(a, n, s, m) && f2[m] as int == DifferenceWord(a, n, s, m))
  {
    hide SumAt, DifferenceAt, SumWord, DifferenceWord, FitsTo;
    f1[0], f2[0] := 2048, 2048;
    coarse := SumAndDifference(a, n, 16384, 2, f1, f2);
    if coarse {
      f1[0], f2[0] := 1024, 1024;
      var _ := SumAndDifference(a, n, 8192, 4, f1, f2);
    }
    ghost var s := if coarse then 4 else 2;
    forall m | 0 <= m <= n && FitsTo(a, n, s, m)
      ensures SumAt(a, n, s, m) as int == SumWord(a, n, s, m)
      ensures DifferenceAt(a, n, s, m) as int == DifferenceWord(a, n, s, m)
    {
      FitsExactly(a, n, s, m);
    }
  }

  // The Q12 words as real numbers.
  function Values(a: seq<Word16>): (v: seq<real>)
    ensures |v| == |a|
    ensures forall i :: 0 <= i < |v| ==> v[i] == a[i] as real / 4096.0
  {
    seq(|a|, i requires 0 <= i < |a| => a[i] as real / 4096.0)
  }

  // Rounding down loses less than one unit.
  lemma RoundedDown(t: int, s: int)
    requires s == 2 || s == 4
    ensures -1.0 <= (t / s) as real - t as real / (s as real) <= 0.0
  {
    DivBounds(t, s);
    var q := t / s;
    if s == 2 { assert (2 * q) as real == 2.0 * (q as real); } else { assert (4 * q) as real == 4.0 * (q as real); }
  }

  // The last terms of the exact recurrences, in units of 4096 / s.
  function SumTerm(a: seq<Word16>, n: nat, s: int, m: nat): real
    requires |a| == 2 * n + 1 && m <= n && s > 0
  {
    4096.0 / (s as real) * LspPoly.SumPrefix(Values(a), n, m)[m]
  }

  function DifferenceTerm(a: seq<Word16>, n: nat, s: int, m: nat): real
    requires |a| == 2 * n + 1 && m <= n && s > 0
  {
    4096.0 / (s as real) * LspPoly.DifferencePrefix(Values(a), n, m)[m]
  }

  lemma TermStep(a: seq<Word16>, n: nat, s: int, m: nat)
    requires |a| == 2 * n + 1 && 1 <= m <= n && (s == 2 || s == 4)
    ensures SumTerm(a, n, s, m) == (a[m] as int + a[2 * n + 1 - m]) as real / (s as real) - SumTerm(a, n, s, m - 1)
    ensures DifferenceTerm(a, n, s, m)
      == (a[m] as int - a[2 * n + 1 - m]) as real / (s as real) + DifferenceTerm(a, n, s, m - 1)
  {
    var v := Values(a);
    assert LspPoly.SumPrefix(v, n, m)[m] == v[m] + v[2 * n + 1 - m] - LspPoly.SumPrefix(v, n, m - 1)[m - 1];
    assert LspPoly.DifferencePrefix(v, n, m)[m]
        == v[m] - v[2 * n + 1 - m] + LspPoly.DifferencePrefix(v, n, m - 1)[m - 1];
  }

  /** Every term is within its index of the exact polynomial, in units of its own scale. */
  lemma {:induction false} WordsNear(a: seq<Word16>, n: nat, s: int, m: nat)
    requires |a| == 2 * n + 1 && m <= n && (s == 2 || s == 4)
    ensures Near(SumWord(a, n, s, m), SumTerm(a, n, s, m), m as real)
    ensures Near(DifferenceWord(a, n, s, m), DifferenceTerm(a, n, s, m), m as real)
  {
    if m > 0 {
      hide SumTerm, DifferenceTerm;
      WordsNear(a, n, s, m - 1);
      TermStep(a, n, s, m);
      RoundedDown(a[m] as int + a[2 * n + 1 - m], s);
      RoundedDown(a[m] as int - a[2 * n + 1 - m], s);
    }
  }

  /** From line spectral pairs to predictor coefficients and back: the two polynomials are recovered
      from the words of LspAz to 1.75 units of Q11 for each index. */
  lemma {:induction false} Recovered(lsp: seq<Word16>, n: nat, a: seq<Word16>, m: nat)
    requires m <= n && 1 <= n <= 5 && |lsp| == 2 * n && |a| == 2 * n + 1
    requires forall i :: 1 <= i <= 2 * n ==> Near(a[i], 4096.0 * Predictor(lsp, n, i), 0.75)
    ensures Near(SumWord(a, n, 2, m), Exact(lsp, 0, n, m) / 8192.0, 1.75 * m as real)
    ensures Near(DifferenceWord(a, n, 2, m), Exact(lsp, 1, n, m) / 8192.0, 1.75 * m as real)
  {
    hide Exact, Predictor;
    if m == 0 {
      ExactEnds(lsp, 0, n);
      ExactEnds(lsp, 1, n);
    } else {
      Recovered(lsp, n, a, m - 1);
      MirroredSums(lsp, n, m);
      RoundedDown(a[m] as int + a[2 * n + 1 - m], 2);
      RoundedDown(a[m] as int - a[2 * n + 1 - m], 2);
    }
  }
}
