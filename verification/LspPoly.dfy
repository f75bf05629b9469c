/** Line spectral pairs to predictor coefficients (LPCFUNC.C) and the sum and difference
    polynomials of the way back (LPC.C), in exact arithmetic and for any number of factors.
    The source works in Q24 with five factors for each of the two polynomials. */
module LspPoly {

  // ----- Polynomials

  function Pow(x: real, n: nat): real {
    if n == 0 then 1.0 else x * Pow(x, n - 1)
  }

  // c[0] + c[1] * x + ... + c[n - 1] * x^(n - 1)
  function Eval(c: seq<real>, x: real, n: nat): real
    requires n <= |c|
  {
    if n == 0 then 0.0 else Eval(c, x, n - 1) + c[n - 1] * Pow(x, n - 1)
  }

  // (1 - 2 q0 x + x^2) (1 - 2 q1 x + x^2) ... over lsp[off], lsp[off + 2], ...
  function Factors(lsp: seq<real>, off: nat, k: nat, x: real): real
    requires k > 0 ==> off + 2 * (k - 1) < |lsp|
  {
    if k == 0 then 1.0
    else Factors(lsp, off, k - 1, x) * (1.0 - 2.0 * lsp[off + 2 * (k - 1)] * x + x * x)
  }

  // Coefficient n of that product, zero outside 0 to 2 k.
  ghost function Coef(lsp: seq<real>, off: nat, k: nat, n: int): real
    requires k > 0 ==> off + 2 * (k - 1) < |lsp|
    decreases k
  {
    if k == 0 then (if n == 0 then 1.0 else 0.0)
    else OneFactor(lsp[off + 2 * (k - 1)], Coef(lsp, off, k - 1, n), Coef(lsp, off, k - 1, n - 1),
        Coef(lsp, off, k - 1, n - 2))
  }

  // A coefficient after multiplication by 1 - 2 q x + x^2.
  function OneFactor(q: real, c0: real, c1: real, c2: real): real { c0 - 2.0 * q * c1 + c2 }

  lemma OneFactorSymmetric(q: real, c0: real, c1: real, c2: real)
    ensures OneFactor(q, c0, c1, c2) == OneFactor(q, c2, c1, c0)
    ensures c1 == 0.0 ==> OneFactor(q, c0, c1, c2) == c0 + c2
  {}

  ghost function Sum(lsp: seq<real>, off: nat, k: nat, x: real, n: int): real
    requires k > 0 ==> off + 2 * (k - 1) < |lsp|
    decreases if n < 0 then 0 else n
  {
    if n <= 0 then 0.0 else Sum(lsp, off, k, x, n - 1) + Coef(lsp, off, k, n - 1) * Pow(x, n - 1)
  }

  /** The product is palindromic, starts with 1 and has degree 2 k. */
  lemma {:induction false} Palindrome(lsp: seq<real>, off: nat, k: nat, n: int)
    requires k > 0 ==> off + 2 * (k - 1) < |lsp|
    ensures Coef(lsp, off, k, n) == Coef(lsp, off, k, 2 * k - n)
    ensures n < 0 || n > 2 * k ==> Coef(lsp, off, k, n) == 0.0
    ensures n == 0 || n == 2 * k ==> Coef(lsp, off, k, n) == 1.0
    decreases k
  {
    hide OneFactor;
    if k > 0 {
      Palindrome(lsp, off, k - 1, n);
      Palindrome(lsp, off, k - 1, n - 1);
      Palindrome(lsp, off, k - 1, n - 2);
      OneFactorSymmetric(lsp[off + 2 * (k - 1)], Coef(lsp, off, k - 1, n), Coef(lsp, off, k - 1, n - 1),
          Coef(lsp, off, k - 1, n - 2));
    }
  }

  // Multiplying by one factor, on partial sums.
  lemma {:induction false} SumStep(lsp: seq<real>, off: nat, k: nat, x: real, n: int)
    requires k > 0 && off + 2 * (k - 1) < |lsp|
    ensures Sum(lsp, off, k, x, n)
      == Weighted(lsp[off + 2 * (k - 1)], x, Sum(lsp, off, k - 1, x, n), Sum(lsp, off, k - 1, x, n - 1),
          Sum(lsp, off, k - 1, x, n - 2))
    decreases if n < 0 then 0 else n
  {
    hide OneFactor, Weighted, Coef, Sum, Power;
    var q := lsp[off + 2 * (k - 1)];
    if n <= 0 {
      SumEmpty(lsp, off, k, x, n);
      SumEmpty(lsp, off, k - 1, x, n);
      SumEmpty(lsp, off, k - 1, x, n - 1);
      SumEmpty(lsp, off, k - 1, x, n - 2);
      WeightedZero(q, x);
    } else {
      SumStep(lsp, off, k, x, n - 1);
      SumTerm(lsp, off, k, x, n);
      SumTerm(lsp, off, k - 1, x, n);
      SumTerm(lsp, off, k - 1, x, n - 1);
      SumTerm(lsp, off, k - 1, x, n - 2);
      CoefStep(lsp, off, k, n - 1);
      var c0, c1, c2 := Coef(lsp, off, k - 1, n - 1), Coef(lsp, off, k - 1, n - 2), Coef(lsp, off, k - 1, n - 3);
      var s0, s1, s2 := Sum(lsp, off, k - 1, x, n - 1), Sum(lsp, off, k - 1, x, n - 2), Sum(lsp, off, k - 1, x, n - 3);
      FactorTerms(q, x, c0, c1, c2, s0, s1, s2, Power(x, n - 1), Power(x, n - 2), Power(x, n - 3),
                  Sum(lsp, off, k - 1, x, n), s0, s1);
      assert Coef(lsp, off, k, n - 1) == OneFactor(q, c0, c1, c2);
      assert Sum(lsp, off, k, x, n - 1) == Weighted(q, x, s0, s1, s2);
    }
  }

  lemma SumEmpty(lsp: seq<real>, off: nat, k: nat, x: real, n: int)
    requires k > 0 ==> off + 2 * (k - 1) < |lsp|
    requires n <= 0
    ensures Sum(lsp, off, k, x, n) == 0.0
  {}

  // Below the first coefficient both the sum and the term are zero.
  lemma SumTerm(lsp: seq<real>, off: nat, k: nat, x: real, n: int)
    requires k > 0 ==> off + 2 * (k - 1) < |lsp|
    ensures Sum(lsp, off, k, x, n) == Sum(lsp, off, k, x, n - 1) + Coef(lsp, off, k, n - 1) * Power(x, n - 1)
    ensures Coef(lsp, off, k, n - 1) == 0.0 || Power(x, n) == x * Power(x, n - 1)
    ensures Coef(lsp, off, k, n - 1) == 0.0 || Power(x, n + 1) == x * (x * Power(x, n - 1))
  {
    hide Coef;
    Palindrome(lsp, off, k, n - 1);
  }

  function Power(x: real, n: int): real { if n < 0 then 0.0 else Pow(x, n) }

  // Partial sums after multiplication by 1 - 2 q x + x^2.
  function Weighted(q: real, x: real, s0: real, s1: real, s2: real): real {
    s0 - 2.0 * q * (x * s1) + x * (x * s2)
  }

  lemma WeightedZero(q: real, x: real)
    ensures Weighted(q, x, 0.0, 0.0, 0.0) == 0.0
  {}

  lemma FactorTerms(q: real, x: real, c0: real, c1: real, c2: real, s0: real, s1: real, s2: real, p0: real,
      p1: real, p2: real, t0: real, t1: real, t2: real)
    requires t0 == s0 + c0 * p0 && t1 == s1 + c1 * p1 && t2 == s2 + c2 * p2
    requires c1 == 0.0 || p0 == x * p1
    requires c2 == 0.0 || p0 == x * (x * p2)
    ensures Weighted(q, x, s0, s1, s2) + OneFactor(q, c0, c1, c2) * p0
      == Weighted(q, x, t0, t1, t2)
  {
    var u, v := c1 * p1, c2 * p2;
    assert c1 * p0 == x * u by { Swap(c1, x, p1); }
    assert c2 * p0 == x * (x * v) by { Swap(c2, x, x * p2); Swap(c2, x, p2); }
    assert x * (s1 + u) == x * s1 + x * u;
    assert x * (x * (s2 + v)) == x * (x * s2) + x * (x * v) by { assert x * (s2 + v) == x * s2 + x * v; }
    OneFactorTimes(q, c0, c1, c2, p0);
  }

  lemma Swap(c: real, x: real, p: real)
    ensures c * (x * p) == x * (c * p)
  {}

  lemma OneFactorTimes(q: real, c0: real, c1: real, c2: real, p: real)
    ensures OneFactor(q, c0, c1, c2) * p == c0 * p - 2.0 * q * (c1 * p) + c2 * p
  {}

  lemma {:induction false} SumPastDegree(lsp: seq<real>, off: nat, k: nat, x: real, n: int)
    requires k > 0 ==> off + 2 * (k - 1) < |lsp|
    requires n >= 2 * k + 1
    ensures Sum(lsp, off, k, x, n) == Sum(lsp, off, k, x, 2 * k + 1)
    decreases n
  {
    if n > 2 * k + 1 {
      SumPastDegree(lsp, off, k, x, n - 1);
      Palindrome(lsp, off, k, n - 1);
    }
  }

  /** The coefficients are those of the product: both sides agree at every point. */
  lemma {:induction false} SumIsProduct(lsp: seq<real>, off: nat, k: nat, x: real)
    requires k > 0 ==> off + 2 * (k - 1) < |lsp|
    ensures Sum(lsp, off, k, x, 2 * k + 1) == Factors(lsp, off, k, x)
  {
    hide Weighted, OneFactor;
    if k == 0 {
      assert Sum(lsp, off, 0, x, 0) == 0.0;
      assert Pow(x, 0) == 1.0;
    } else {
      SumStep(lsp, off, k, x, 2 * k + 1);
      SumPastDegree(lsp, off, k - 1, x, 2 * k + 1);
      SumPastDegree(lsp, off, k - 1, x, 2 * k);
      SumIsProduct(lsp, off, k - 1, x);
      Distribute(Factors(lsp, off, k - 1, x), lsp[off + 2 * (k - 1)], x);
    }
  }

  lemma Distribute(p: real, q: real, x: real)
    ensures Weighted(q, x, p, p, p) == p * (1.0 - 2.0 * q * x + x * x)
  {}

  // ----- Get_lsp_pol

  // The first k + 1 coefficients of the product of k factors.
  ghost predicate LowerHalf(f: seq<real>, lsp: seq<real>, off: nat, k: nat)
    requires k > 0 ==> off + 2 * (k - 1) < |lsp|
    requires k < |f|
  {
    forall n :: 0 <= n <= k ==> f[n] == Coef(lsp, off, k, n)
  }

  /** Get_lsp_pol: one factor at a time, in place and from the top down. */
  method GetLspPol(lsp: seq<real>, off: nat, f: array<real>)
    requires f.Length >= 2 && off + 2 * (f.Length - 2) < |lsp|
    modifies f
    ensures LowerHalf(f[..], lsp, off, f.Length - 1)
  {
    f[0] := 1.0;
    f[1] := -2.0 * lsp[off];
    FirstFactor(lsp, off);
    for i := 2 to f.Length
      invariant LowerHalf(f[..], lsp, off, i - 1)
    {
      AddFactor(lsp, off, f, i);
    }
  }

  lemma FirstFactor(lsp: seq<real>, off: nat)
    requires off < |lsp|
    ensures Coef(lsp, off, 1, 0) == 1.0 && Coef(lsp, off, 1, 1) == -2.0 * lsp[off]
  {
    assert Coef(lsp, off, 0, 0) == 1.0 && Coef(lsp, off, 0, 1) == 0.0 && Coef(lsp, off, 0, -1) == 0.0;
  }

  method AddFactor(lsp: seq<real>, off: nat, f: array<real>, i: nat)
    requires 2 <= i < f.Length && off + 2 * (i - 1) < |lsp|
    requires LowerHalf(f[..], lsp, off, i - 1)
    modifies f
    ensures LowerHalf(f[..], lsp, off, i)
  {
    hide Coef;
    var q := lsp[off + 2 * (i - 1)];
    f[i] := f[i - 2];
    Palindrome(lsp, off, i - 1, i);
    var p := i;
    while p > 1
      invariant 1 <= p <= i
      invariant forall n :: 0 <= n <= p ==> f[n] == Coef(lsp, off, i - 1, n)
      invariant forall n :: p < n <= i ==> f[n] == Coef(lsp, off, i, n)
    {
      CoefStep(lsp, off, i, p);
      f[p] := f[p] + f[p - 2];
      f[p] := f[p] - 2.0 * q * f[p - 1];
      p := p - 1;
    }
    CoefStep(lsp, off, i, 1);
    Palindrome(lsp, off, i - 1, -1);
    Palindrome(lsp, off, i - 1, 0);
    Palindrome(lsp, off, i, 0);
    f[1] := f[1] - 2.0 * q;
  }

  lemma CoefStep(lsp: seq<real>, off: nat, k: nat, n: int)
    requires k > 0 && off + 2 * (k - 1) < |lsp|
    ensures Coef(lsp, off, k, n)
      == OneFactor(lsp[off + 2 * (k - 1)], Coef(lsp, off, k - 1, n), Coef(lsp, off, k - 1, n - 1),
          Coef(lsp, off, k - 1, n - 2))
  {}

  // ----- Lsp_Az

  // Multiplication of the first coefficients by 1 + x (sign 1) or 1 - x (sign -1).
  function Raised(f: seq<real>, sign: real): (g: seq<real>)
    ensures |g| == |f|
  {
    seq(|f|, i requires 0 <= i < |f| => if i == 0 then f[0] else f[i] + sign * f[i - 1])
  }

  // The recombination of the two raised halves into 2 n + 1 coefficients.
  function Recombined(f1: seq<real>, f2: seq<real>): (a: seq<real>)
    requires |f1| == |f2| >= 1
    ensures |a| == 2 * |f1| - 1
  {
    var n := |f1| - 1;
    var g1, g2 := Raised(f1, 1.0), Raised(f2, -1.0);
    seq(2 * n + 1, i requires 0 <= i < 2 * n + 1 =>
      if i == 0 then 1.0
      else if i <= n then (g1[i] + g2[i]) / 2.0
      else (g1[2 * n + 1 - i] - g2[2 * n + 1 - i]) / 2.0)
  }

  lemma RaisedAt(f: seq<real>, i: nat)
    requires i < |f|
    ensures Raised(f, 1.0)[i] == if i == 0 then f[0] else f[i] + f[i - 1]
    ensures Raised(f, -1.0)[i] == if i == 0 then f[0] else f[i] - f[i - 1]
  {}

  method Raise(f1: array<real>, f2: array<real>, ghost h1: seq<real>, ghost h2: seq<real>)
    requires f1 != f2 && f1.Length == f2.Length >= 1 && h1 == f1[..] && h2 == f2[..]
    modifies f1, f2
    ensures f1[..] == Raised(h1, 1.0) && f2[..] == Raised(h2, -1.0)
  {
    hide Raised;
    var i := f1.Length - 1;
    while i > 0
      invariant 0 <= i < f1.Length
      invariant forall k :: 0 <= k <= i ==> f1[k] == h1[k] && f2[k] == h2[k]
      invariant forall k :: i < k < f1.Length ==> f1[k] == Raised(h1, 1.0)[k] && f2[k] == Raised(h2, -1.0)[k]
    {
      RaisedAt(h1, i);
      RaisedAt(h2, i);
      f1[i] := f1[i] + f1[i - 1];
      f2[i] := f2[i] - f2[i - 1];
      i := i - 1;
    }
    RaisedAt(h1, 0);
    RaisedAt(h2, 0);
  }

  /** Lsp_Az without its fixed-point scaling. */
  method LspAz(lsp: seq<real>, n: nat) returns (a: array<real>)
    requires 1 <= n && |lsp| == 2 * n
    ensures a.Length == 2 * n + 1
    ensures forall x :: Eval(a[..], x, 2 * n + 1) == Half(lsp, n, x)
  {
    hide Raised, Recombined, Half, Eval, LowerHalf;
    var f1, f2 := new real[n + 1], new real[n + 1];
    GetLspPol(lsp, 0, f1);
    GetLspPol(lsp, 1, f2);
    ghost var h1, h2 := f1[..], f2[..];
    Raise(f1, f2, h1, h2);
    a := Recombine(f1, f2, h1, h2);
    forall x ensures Eval(a[..], x, 2 * n + 1) == Half(lsp, n, x) {
      RecombinedIsHalf(lsp, n, h1, h2, x);
    }
  }

  method Recombine(f1: array<real>, f2: array<real>, ghost h1: seq<real>, ghost h2: seq<real>) returns (a: array<real>)
    requires |h1| == |h2| >= 2 && f1[..] == Raised(h1, 1.0) && f2[..] == Raised(h2, -1.0)
    ensures fresh(a) && a[..] == Recombined(h1, h2)
  {
    var n := f1.Length - 1;
    a := new real[2 * n + 1];
    a[0] := 1.0;
    var i, j := 1, 2 * n;
    while i <= n
      invariant 1 <= i <= n + 1 && i + j == 2 * n + 1
      invariant forall k :: 0 <= k < i ==> a[k] == Recombined(h1, h2)[k]
      invariant forall k :: j < k <= 2 * n ==> a[k] == Recombined(h1, h2)[k]
    {
      a[i] := (f1[i] + f2[i]) / 2.0;
      a[j] := (f1[i] - f2[i]) / 2.0;
      i := i + 1;
      j := j - 1;
    }
  }

  // A(x) = ((1 + x) F1(x) + (1 - x) F2(x)) / 2
  function Half(lsp: seq<real>, n: nat, x: real): real
    requires |lsp| == 2 * n
  {
    ((1.0 + x) * Factors(lsp, 0, n, x) + (1.0 - x) * Factors(lsp, 1, n, x)) / 2.0
  }

  // Coefficient i of A over both full products.
  ghost function HalfCoef(lsp: seq<real>, n: nat, i: int): real
    requires 1 <= n && |lsp| == 2 * n
  {
    (Coef(lsp, 0, n, i) + Coef(lsp, 0, n, i - 1) + Coef(lsp, 1, n, i) - Coef(lsp, 1, n, i - 1)) / 2.0
  }

  lemma RecombinedCoef(lsp: seq<real>, n: nat, f1: seq<real>, f2: seq<real>, i: nat)
    requires 1 <= n && |lsp| == 2 * n && |f1| == |f2| == n + 1 && i <= 2 * n
    requires LowerHalf(f1, lsp, 0, n) && LowerHalf(f2, lsp, 1, n)
    ensures Recombined(f1, f2)[i] == HalfCoef(lsp, n, i)
  {
    hide Coef;
    if i == 0 {
      Palindrome(lsp, 0, n, -1);
      Palindrome(lsp, 1, n, -1);
      Palindrome(lsp, 0, n, 0);
      Palindrome(lsp, 1, n, 0);
    } else if i <= n {
      assert Recombined(f1, f2)[i] == (f1[i] + f1[i - 1] + (f2[i] - f2[i - 1])) / 2.0;
    } else {
      var j := 2 * n + 1 - i;
      Palindrome(lsp, 0, n, j);
      Palindrome(lsp, 1, n, j);
      Palindrome(lsp, 0, n, j - 1);
      Palindrome(lsp, 1, n, j - 1);
      assert Recombined(f1, f2)[i] == (f1[j] + f1[j - 1] - (f2[j] - f2[j - 1])) / 2.0;
      assert 2 * n - j == i - 1 && 2 * n - (j - 1) == i;
    }
  }

  lemma {:induction false} HalfSum(lsp: seq<real>, n: nat, c: seq<real>, x: real, m: nat)
    requires 1 <= n && |lsp| == 2 * n && m <= |c|
    requires forall i :: 0 <= i < |c| ==> c[i] == HalfCoef(lsp, n, i)
    ensures 2.0 * Eval(c, x, m) == Mixed(x, Sum(lsp, 0, n, x, m), Sum(lsp, 0, n, x, m - 1), Sum(lsp, 1, n, x, m),
        Sum(lsp, 1, n, x, m - 1))
  {
    hide Coef, Sum, Pow, Mixed;
    if m == 0 {
      SumEmpty(lsp, 0, n, x, 0);
      SumEmpty(lsp, 1, n, x, 0);
      SumEmpty(lsp, 0, n, x, -1);
      SumEmpty(lsp, 1, n, x, -1);
      MixedZero(x);
    } else {
      HalfSum(lsp, n, c, x, m - 1);
      SumTerm(lsp, 0, n, x, m);
      SumTerm(lsp, 1, n, x, m);
      SumTerm(lsp, 0, n, x, m - 1);
      SumTerm(lsp, 1, n, x, m - 1);
      MixedTerm(Coef(lsp, 0, n, m - 1), Coef(lsp, 0, n, m - 2), Coef(lsp, 1, n, m - 1), Coef(lsp, 1, n, m - 2),
                x, Power(x, m - 1), Power(x, m - 2), c[m - 1], Eval(c, x, m - 1),
                Sum(lsp, 0, n, x, m - 1), Sum(lsp, 0, n, x, m - 2), Sum(lsp, 1, n, x, m - 1), Sum(lsp, 1, n, x, m - 2),
                Sum(lsp, 0, n, x, m), Sum(lsp, 1, n, x, m));
    }
  }

  // (1 + x) f + (1 - x) g on partial sums of f and g.
  function Mixed(x: real, f0: real, f1: real, g0: real, g1: real): real { f0 + x * f1 + g0 - x * g1 }

  lemma MixedZero(x: real)
    ensures Mixed(x, 0.0, 0.0, 0.0, 0.0) == 0.0
  {}

  lemma MixedTerm(a0: real, a1: real, b0: real, b1: real, x: real, p0: real, p1: real, c: real, e: real,
                  f1: real, f2: real, g1: real, g2: real, f0: real, g0: real)
    requires a1 == 0.0 || p0 == x * p1
    requires b1 == 0.0 || p0 == x * p1
    requires c == (a0 + a1 + b0 - b1) / 2.0
    requires f0 == f1 + a0 * p0 && g0 == g1 + b0 * p0
    requires f1 == f2 + a1 * p1 && g1 == g2 + b1 * p1
    requires 2.0 * e == Mixed(x, f1, f2, g1, g2)
    ensures 2.0 * (e + c * p0) == Mixed(x, f0, f1, g0, g1)
  {
    Swap(a1, x, p1);
    Swap(b1, x, p1);
    assert x * f1 == x * f2 + x * (a1 * p1) && x * g1 == x * g2 + x * (b1 * p1);
    assert 2.0 * (c * p0) == a0 * p0 + a1 * p0 + b0 * p0 - b1 * p0;
  }

  /** The recombined coefficients are those of A(x), at every point. */
  lemma RecombinedIsHalf(lsp: seq<real>, n: nat, f1: seq<real>, f2: seq<real>, x: real)
    requires 1 <= n && |lsp| == 2 * n && |f1| == |f2| == n + 1
    requires LowerHalf(f1, lsp, 0, n) && LowerHalf(f2, lsp, 1, n)
    ensures Eval(Recombined(f1, f2), x, 2 * n + 1) == Half(lsp, n, x)
  {
    hide Coef, Factors, Pow, Recombined;
    var c := Recombined(f1, f2);
    forall i | 0 <= i < |c| ensures c[i] == HalfCoef(lsp, n, i) {
      RecombinedCoef(lsp, n, f1, f2, i);
    }
    HalfSum(lsp, n, c, x, 2 * n + 1);
    Palindrome(lsp, 0, n, 2 * n);
    Palindrome(lsp, 1, n, 2 * n);
    SumIsProduct(lsp, 0, n, x);
    SumIsProduct(lsp, 1, n, x);
    LastTermsCancel(Factors(lsp, 0, n, x), Factors(lsp, 1, n, x), Pow(x, 2 * n), x);
  }

  lemma LastTermsCancel(s1: real, s2: real, p: real, x: real)
    ensures Mixed(x, s1, s1 - p, s2, s2 - p) == (1.0 + x) * s1 + (1.0 - x) * s2
  {
    assert x * (s1 - p) == x * s1 - x * p && x * (s2 - p) == x * s2 - x * p;
  }

  // ----- The sum and difference polynomials of Az_lsp

  // f1[i + 1] = a[i + 1] + a[M - i] - f1[i]
  function SumPrefix(a: seq<real>, n: nat, m: nat): (f: seq<real>)
    requires |a| == 2 * n + 1 && m <= n
    ensures |f| == m + 1
  {
    if m == 0 then [1.0]
    else var f := SumPrefix(a, n, m - 1); f + [a[m] + a[2 * n + 1 - m] - f[m - 1]]
  }

  // f2[i + 1] = a[i + 1] - a[M - i] + f2[i]
  function DifferencePrefix(a: seq<real>, n: nat, m: nat): (f: seq<real>)
    requires |a| == 2 * n + 1 && m <= n
    ensures |f| == m + 1
  {
    if m == 0 then [1.0]
    else var f := DifferencePrefix(a, n, m - 1); f + [a[m] - a[2 * n + 1 - m] + f[m - 1]]
  }

  method SumAndDifference(a: seq<real>, n: nat, f1: array<real>, f2: array<real>)
    requires |a| == 2 * n + 1 && f1.Length == f2.Length == n + 1 && f1 != f2
    modifies f1, f2
    ensures f1[..] == SumPrefix(a, n, n) && f2[..] == DifferencePrefix(a, n, n)
  {
    f1[0], f2[0] := 1.0, 1.0;
    for i := 0 to n
      invariant f1[..i + 1] == SumPrefix(a, n, i) && f2[..i + 1] == DifferencePrefix(a, n, i)
    {
      ghost var g1, g2 := f1[..i + 1], f2[..i + 1];
      f1[i + 1] := a[i + 1] + a[2 * n - i] - f1[i];
      f2[i + 1] := a[i + 1] - a[2 * n - i] + f2[i];
      assert f1[..i + 2] == g1 + [f1[i + 1]] && f2[..i + 2] == g2 + [f2[i + 1]];
    }
  }

  /** Recombining any two halves that start with 1 and taking the sum and difference
      polynomials of the result gives the halves back. */
  lemma {:induction false} SplitInvertsRecombine(f1: seq<real>, f2: seq<real>, m: nat)
    requires |f1| == |f2| && m < |f1| && f1[0] == f2[0] == 1.0
    ensures SumPrefix(Recombined(f1, f2), |f1| - 1, m) == f1[..m + 1]
    ensures DifferencePrefix(Recombined(f1, f2), |f1| - 1, m) == f2[..m + 1]
  {
    if m > 0 {
      SplitInvertsRecombine(f1, f2, m - 1);
    }
  }

  /** Conversely, any coefficients starting with 1 are recombined from their own two polynomials. */
  lemma RecombineInvertsSplit(a: seq<real>, n: nat)
    requires |a| == 2 * n + 1 && a[0] == 1.0
    ensures Recombined(SumPrefix(a, n, n), DifferencePrefix(a, n, n)) == a
  {
    var c := Recombined(SumPrefix(a, n, n), DifferencePrefix(a, n, n));
    forall i | 0 <= i <= 2 * n ensures c[i] == a[i] {
      if 0 < i <= n { PrefixEntry(a, n, n, i); }
      if i > n { PrefixEntry(a, n, n, 2 * n + 1 - i); }
    }
  }

  lemma {:induction false} PrefixEntry(a: seq<real>, n: nat, m: nat, i: nat)
    requires |a| == 2 * n + 1 && 0 < i <= m <= n
    ensures SumPrefix(a, n, m)[i] + SumPrefix(a, n, m)[i - 1] == a[i] + a[2 * n + 1 - i]
    ensures DifferencePrefix(a, n, m)[i] - DifferencePrefix(a, n, m)[i - 1] == a[i] - a[2 * n + 1 - i]
  {
    if i < m { PrefixEntry(a, n, m - 1, i); }
  }
}
