/** What the fixed-point range of Get_lsp_pol and Lsp_Az asks of the line spectral pairs: which
    vectors meet the conditions of LspFixed, and which cannot be represented at all. */
module LspRange {
  import opened BasicOp
  import opened LspFixed
  import opened LspPoly
  import Codec

  // ----- Vectors that stay in range

  // m holds bounds of the magnitudes of c, negated.
  ghost predicate Bounds(c: seq<real>, m: seq<real>) {
    |c| == |m| && forall i :: 0 <= i < |c| ==> m[i] <= c[i] <= -m[i]
  }

  // The middle part of a coefficient after multiplication by 1 - 2 b x + x^2.
  function Middle(b: real, m1: real): real { -2.0 * (b * m1) }

  lemma FactorBounded(q: real, b: real, c0: real, c1: real, c2: real, m0: real, m1: real, m2: real)
    requires b <= q <= -b && -m0 <= c0 <= m0 && -m1 <= c1 <= m1 && -m2 <= c2 <= m2
    ensures -OneFactor(b, m0, m1, m2) <= OneFactor(q, c0, c1, c2) <= OneFactor(b, m0, m1, m2)
    ensures -Middle(b, m1) <= 2.0 * (q * c1) <= Middle(b, m1) && 0.0 <= Middle(b, m1)
  {
    ProductBounded(q, -b, c1, m1);
    assert 2.0 * q * c1 == 2.0 * (q * c1) && 2.0 * b * m1 == 2.0 * (b * m1) && -b * m1 == -(b * m1);
  }

  lemma ProductBounded(q: real, b: real, x: real, m: real)
    requires -b <= q <= b && -m <= x <= m
    ensures -(b * m) <= q * x <= b * m && 0.0 <= b * m
  {
    var p, y := if q >= 0.0 then q else -q, if x >= 0.0 then x else -x;
    assert 0.0 <= p * y <= p * m <= b * m;
    if q >= 0.0 { assert q * x == p * x; } else { assert q * x == -(p * x); }
    if x >= 0.0 { assert p * x == p * y; } else { assert p * x == -(p * y); }
  }

  /** The coefficients for the negated magnitudes bound all others. */
  lemma {:induction false} Dominated(c: seq<real>, m: seq<real>, off: nat, k: nat, n: int)
    requires Bounds(c, m) && (k > 0 ==> off + 2 * (k - 1) < |c|)
    ensures -Coef(m, off, k, n) <= Coef(c, off, k, n) <= Coef(m, off, k, n)
    decreases k
  {
    hide OneFactor;
    if k > 0 {
      Dominated(c, m, off, k - 1, n);
      Dominated(c, m, off, k - 1, n - 1);
      Dominated(c, m, off, k - 1, n - 2);
      var i := off + 2 * (k - 1);
      FactorBounded(c[i], m[i], Coef(c, off, k - 1, n), Coef(c, off, k - 1, n - 1), Coef(c, off, k - 1, n - 2),
                    Coef(m, off, k - 1, n), Coef(m, off, k - 1, n - 1), Coef(m, off, k - 1, n - 2));
    }
  }

  // They grow with every factor.
  lemma {:induction false} Grows(m: seq<real>, off: nat, j: nat, k: nat, n: int)
    requires Bounds(m, m) && j <= k && (k > 0 ==> off + 2 * (k - 1) < |m|)
    ensures Coef(m, off, j, n) <= Coef(m, off, k, n)
    decreases k
  {
    hide OneFactor;
    if j < k {
      Grows(m, off, j, k - 1, n);
      FactorParts(m, off, k, n);
    }
  }

  // The parts of a coefficient are not negative.
  lemma FactorParts(m: seq<real>, off: nat, k: nat, n: int)
    requires Bounds(m, m) && k > 0 && off + 2 * (k - 1) < |m|
    ensures var b := m[off + 2 * (k - 1)];
      && Coef(m, off, k, n)
         == Coef(m, off, k - 1, n) + Middle(b, Coef(m, off, k - 1, n - 1)) + Coef(m, off, k - 1, n - 2)
      && 0.0 <= Coef(m, off, k - 1, n) && 0.0 <= Middle(b, Coef(m, off, k - 1, n - 1))
      && 0.0 <= Coef(m, off, k - 1, n - 2) && 0.0 <= Coef(m, off, k - 1, n - 1)
  {
    hide Coef;
    Dominated(m, m, off, k - 1, n);
    Dominated(m, m, off, k - 1, n - 1);
    Dominated(m, m, off, k - 1, n - 2);
    CoefStep(m, off, k, n);
    var b := m[off + 2 * (k - 1)];
    var x := Coef(m, off, k - 1, n - 1);
    FactorBounded(b, b, 0.0, x, 0.0, 0.0, x, 0.0);
    assert 2.0 * b * x == 2.0 * (b * x);
  }

  /** Line spectral pairs are tame when the coefficients for bounds of their magnitudes are at most 126. */
  lemma TameBelow(lsp: seq<Word16>, m: seq<real>, off: nat, k: nat)
    requires Bounds(Cosines(lsp), m) && k > 0 && off + 2 * (k - 1) < |lsp|
    requires forall n :: 1 <= n <= k ==> Coef(m, off, k, n) <= 126.0
    ensures Tame(lsp, off, k)
  {
    hide Coef, Exact, TameTerms;
    forall j, n | 1 <= j <= k && 1 <= n <= j ensures TameTerms(lsp, off, j, n) {
      Grows(m, off, j, k, n);
      Grows(m, off, j - 1, k, n - 1);
      Palindrome(m, off, k, 0);
      TermsBelow(lsp, m, off, j, n);
    }
  }

  lemma TermsBelow(lsp: seq<Word16>, m: seq<real>, off: nat, k: nat, n: int)
    requires Bounds(Cosines(lsp), m) && k > 0 && off + 2 * (k - 1) < |lsp| && Coef(m, off, k, n) <= 126.0
    requires Coef(m, off, k - 1, n - 1) <= 126.0
    ensures TameTerms(lsp, off, k, n)
  {
    var c := Cosines(lsp);
    hide Coef, OneFactor, Cosines, Cosine, Middle;
    var i := off + 2 * (k - 1);
    Dominated(c, m, off, k, n);
    Dominated(c, m, off, k - 1, n);
    Dominated(c, m, off, k - 1, n - 1);
    Dominated(c, m, off, k - 1, n - 2);
    FactorParts(m, off, k, n);
    assert c[i] == Cosine(lsp[i]);
    PartsFit(Cosine(lsp[i]), m[i], Coef(c, off, k - 1, n), Coef(c, off, k - 1, n - 1), Coef(c, off, k - 1, n - 2),
             Coef(m, off, k - 1, n), Coef(m, off, k - 1, n - 1), Coef(m, off, k - 1, n - 2));
    InQ24(Coef(c, off, k, n));
  }

  lemma PartsFit(q: real, b: real, c0: real, c1: real, c2: real, m0: real, m1: real, m2: real)
    requires b <= q <= -b && -m0 <= c0 <= m0 && -m1 <= c1 <= m1 && -m2 <= c2 <= m2
    requires m1 <= 126.0 && m0 + Middle(b, m1) + m2 <= 126.0
    ensures Modest(ONE * c1) && Modest(ONE * c0 + ONE * c2) && Modest(2.0 * (q * (ONE * c1)))
  {
    hide Middle, OneFactor;
    FactorBounded(q, b, c0, c1, c2, m0, m1, m2);
    var p := q * c1;
    assert q * (ONE * c1) == ONE * p;
    InQ24(c1);
    InQ24(c0 + c2);
    InQ24(2.0 * p);
  }

  lemma InQ24(x: real)
    requires -126.0 <= x <= 126.0
    ensures Modest(ONE * x)
  {}


  // ----- Rows of coefficients

  // The first six coefficients of the product of k factors.
  ghost predicate RowIs(c: seq<real>, off: nat, k: nat, r: seq<real>)
    requires k > 0 ==> off + 2 * (k - 1) < |c|
  {
    |r| == 6 && forall n :: 0 <= n < 6 ==> Coef(c, off, k, n) == r[n]
  }

  lemma FirstRow(c: seq<real>, off: nat)
    ensures RowIs(c, off, 0, [1.0, 0.0, 0.0, 0.0, 0.0, 0.0])
  {}

  lemma RowStep(c: seq<real>, off: nat, k: nat, q: real, r: seq<real>, s: seq<real>)
    requires 0 < k && off + 2 * (k - 1) < |c| && c[off + 2 * (k - 1)] == q && RowIs(c, off, k - 1, r) && |s| == 6
    requires s[0] == OneFactor(q, r[0], 0.0, 0.0) && s[1] == OneFactor(q, r[1], r[0], 0.0)
    requires s[2] == OneFactor(q, r[2], r[1], r[0]) && s[3] == OneFactor(q, r[3], r[2], r[1])
    requires s[4] == OneFactor(q, r[4], r[3], r[2]) && s[5] == OneFactor(q, r[5], r[4], r[3])
    ensures RowIs(c, off, k, s)
  {
    hide Coef, OneFactor;
    forall n | 0 <= n < 6 ensures Coef(c, off, k, n) == s[n] {
      CoefStep(c, off, k, n);
      Earlier(c, off, k - 1, r, n - 1);
      Earlier(c, off, k - 1, r, n - 2);
      RowTerm(q, r, s, n);
    }
  }

  // Entry n of a row, zero below the first.
  function Entry(r: seq<real>, n: int): real
    requires n < |r|
  {
    if n < 0 then 0.0 else r[n]
  }

  lemma Earlier(c: seq<real>, off: nat, k: nat, r: seq<real>, n: int)
    requires (k > 0 ==> off + 2 * (k - 1) < |c|) && RowIs(c, off, k, r) && n < 6
    ensures Coef(c, off, k, n) == Entry(r, n)
  {
    hide Coef;
    if n < 0 { Palindrome(c, off, k, n); }
  }

  lemma RowTerm(q: real, r: seq<real>, s: seq<real>, n: nat)
    requires |r| == |s| == 6 && n < 6
    requires s[0] == OneFactor(q, r[0], 0.0, 0.0) && s[1] == OneFactor(q, r[1], r[0], 0.0)
    requires s[2] == OneFactor(q, r[2], r[1], r[0]) && s[3] == OneFactor(q, r[3], r[2], r[1])
    requires s[4] == OneFactor(q, r[4], r[3], r[2]) && s[5] == OneFactor(q, r[5], r[4], r[3])
    ensures s[n] == OneFactor(q, r[n], Entry(r, n - 1), Entry(r, n - 2))
  {
    hide OneFactor;
  }

  // All factors alike.
  function Constant(q: real, size: nat): (c: seq<real>)
    ensures |c| == size && forall i :: 0 <= i < size ==> c[i] == q
  {
    seq(size, _ => q)
  }

  // The magnitude 3/4.
  lemma ThreeQuarters(size: nat, off: nat)
    requires off + 8 < size
    ensures RowIs(Constant(-0.75, size), off, 5, [1.0, 15.0 / 2.0, 55.0 / 2.0, 255.0 / 4.0, 1645.0 / 16.0,
      3843.0 / 32.0])
  {
    var c := Constant(-0.75, size);
    FirstRow(c, off);
    var r0 := [1.0, 0.0, 0.0, 0.0, 0.0, 0.0];
    var r1 := [1.0, 3.0 / 2.0, 1.0, 0.0, 0.0, 0.0];
    var r2 := [1.0, 3.0, 17.0 / 4.0, 3.0, 1.0, 0.0];
    var r3 := [1.0, 9.0 / 2.0, 39.0 / 4.0, 99.0 / 8.0, 39.0 / 4.0, 9.0 / 2.0];
    var r4 := [1.0, 6.0, 35.0 / 2.0, 63.0 / 2.0, 609.0 / 16.0, 63.0 / 2.0];
    var r5 := [1.0, 15.0 / 2.0, 55.0 / 2.0, 255.0 / 4.0, 1645.0 / 16.0, 3843.0 / 32.0];
    RowStep(c, off, 1, -3.0 / 4.0, r0, r1);
    RowStep(c, off, 2, -3.0 / 4.0, r1, r2);
    RowStep(c, off, 3, -3.0 / 4.0, r2, r3);
    RowStep(c, off, 4, -3.0 / 4.0, r3, r4);
    RowStep(c, off, 5, -3.0 / 4.0, r4, r5);
  }

  /** Words up to three quarters in magnitude are always tame. */
  lemma SmallIsTame(lsp: seq<Word16>, off: nat)
    requires off + 8 < |lsp| && forall i :: 0 <= i < |lsp| ==> -24576 <= lsp[i] <= 24576
    ensures Tame(lsp, off, 5)
  {
    hide Coef, Tame;
    var m := Constant(-0.75, |lsp|);
    ThreeQuarters(|lsp|, off);
    TameBelow(lsp, m, off, 5);
  }

  // ----- Vectors that cannot be represented

  // x with the sign of an even index.
  function Alternating(n: int, x: real): real { if n % 2 == 0 then x else -x }

  /** Factors at least as large as the bounds have coefficients of alternating sign that are at least as large. */
  lemma {:induction false} Dominates(c: seq<real>, m: seq<real>, off: nat, k: nat, n: int)
    requires |c| == |m| && (k > 0 ==> off + 2 * (k - 1) < |c|)
    requires forall i :: 0 <= i < k ==> m[off + 2 * i] <= 0.0 && -m[off + 2 * i] <= c[off + 2 * i]
    ensures 0.0 <= Coef(m, off, k, n) <= Alternating(n, Coef(c, off, k, n))
    decreases k
  {
    if k > 0 {
      hide OneFactor;
      Dominates(c, m, off, k - 1, n);
      Dominates(c, m, off, k - 1, n - 1);
      Dominates(c, m, off, k - 1, n - 2);
      var i := off + 2 * (k - 1);
      assert i == off + 2 * (k - 1);
      FactorDominates(n, c[i], m[i], Coef(c, off, k - 1, n), Coef(c, off, k - 1, n - 1), Coef(c, off, k - 1, n - 2),
                      Coef(m, off, k - 1, n), Coef(m, off, k - 1, n - 1), Coef(m, off, k - 1, n - 2));
    }
  }

  lemma FactorDominates(n: int, q: real, b: real, c0: real, c1: real, c2: real, m0: real, m1: real, m2: real)
    requires b <= 0.0 && -b <= q && 0.0 <= m0 <= Alternating(n, c0) && 0.0 <= m1 <= Alternating(n - 1, c1)
    requires 0.0 <= m2 <= Alternating(n - 2, c2)
    ensures 0.0 <= OneFactor(b, m0, m1, m2) <= Alternating(n, OneFactor(q, c0, c1, c2))
  {
    hide Alternating;
    AlternatingFactor(n, q, c0, c1, c2);
    ProductAtLeast(-b, q, m1, Alternating(n - 1, c1));
    assert 2.0 * b * m1 == -2.0 * (-b * m1);
  }

  lemma AlternatingFactor(n: int, q: real, c0: real, c1: real, c2: real)
    ensures Alternating(n, OneFactor(q, c0, c1, c2))
         == Alternating(n, c0) + 2.0 * (q * Alternating(n - 1, c1)) + Alternating(n - 2, c2)
  {
    assert 2.0 * q * c1 == 2.0 * (q * c1);
    assert q * -c1 == -(q * c1);
  }

  lemma ProductAtLeast(a: real, q: real, x: real, y: real)
    requires 0.0 <= a <= q && 0.0 <= x <= y
    ensures 0.0 <= a * x <= q * y
  {
    assert a * x <= q * x <= q * y;
  }

  // The magnitude 25/32.
  lemma TwentyFiveThirtySeconds(size: nat, off: nat)
    requires off + 8 < size
    ensures RowIs(Constant(-0.78125, size), off, 5, [1.0, 125.0 / 16.0, 3765.0 / 128.0, 142125.0 / 2048.0, 7408485.0
      / 65536.0, 138917625.0 / 1048576.0])
  {
    var c := Constant(-0.78125, size);
    FirstRow(c, off);
    var r0 := [1.0, 0.0, 0.0, 0.0, 0.0, 0.0];
    var r1 := [1.0, 25.0 / 16.0, 1.0, 0.0, 0.0, 0.0];
    var r2 := [1.0, 25.0 / 8.0, 1137.0 / 256.0, 25.0 / 8.0, 1.0, 0.0];
    var r3 := [1.0, 75.0 / 16.0, 2643.0 / 256.0, 54025.0 / 4096.0, 2643.0 / 256.0, 75.0 / 16.0];
    var r4 := [1.0, 25.0 / 4.0, 2387.0 / 128.0, 34825.0 / 1024.0, 2703841.0 / 65536.0, 34825.0 / 1024.0];
    var r5 := [1.0, 125.0 / 16.0, 3765.0 / 128.0, 142125.0 / 2048.0, 7408485.0 / 65536.0, 138917625.0 / 1048576.0];
    RowStep(c, off, 1, -25.0 / 32.0, r0, r1);
    RowStep(c, off, 2, -25.0 / 32.0, r1, r2);
    RowStep(c, off, 3, -25.0 / 32.0, r2, r3);
    RowStep(c, off, 4, -25.0 / 32.0, r3, r4);
    RowStep(c, off, 5, -25.0 / 32.0, r4, r5);
  }

  /** Five words of at least 25/32, as for densely packed low frequencies: no 32-bit word comes within a
      million units of the middle coefficient, so whatever Get_lsp_pol leaves there is wrong. */
  lemma PackedOverflows(lsp: seq<Word16>, off: nat, f: Word32)
    requires off + 8 < |lsp| && forall i :: 0 <= i < 5 ==> lsp[off + 2 * i] >= 25600
    ensures f as real - Exact(lsp, off, 5, 5) > 1000000.0 && !Tame(lsp, off, 5)
  {
    hide Coef;
    var c, m := Cosines(lsp), Constant(-0.78125, |lsp|);
    TwentyFiveThirtySeconds(|lsp|, off);
    Dominates(c, m, off, 5, 5);
    assert Coef(m, off, 5, 5) > 130.0;
    TameMiddle(lsp, off);
  }

  lemma TameMiddle(lsp: seq<Word16>, off: nat)
    requires off + 8 < |lsp|
    ensures Tame(lsp, off, 5) ==> Modest(Exact(lsp, off, 5, 5))
  {
    hide Exact;
    assert Tame(lsp, off, 5) ==> TameTerms(lsp, off, 5, 5);
  }

  // ----- The vector the coder starts with

  // Cosines of the reset vector and bounds of their magnitudes.
  ghost predicate IsStart(lsp: seq<Word16>) {
    lsp == Codec.LSP_OLD
  }

  ghost predicate AreBounds(m: seq<real>) {
    m == [-0.92, -0.8, -0.65, -0.46, -0.25, 0.0, -0.25, -0.46, -0.65, -0.8]
  }

  // The product over the first, third, ... bound.
  lemma BoundRow0(m: seq<real>)
    requires AreBounds(m)
    ensures RowIs(m, 0, 5, [1.0, 136.0 / 25.0, 4041.0 / 250.0, 40567.0 / 1250.0, 482201.0 / 10000.0,
      274023.0 / 5000.0])
  {
    FirstRow(m, 0);
    var r0 := [1.0, 0.0, 0.0, 0.0, 0.0, 0.0];
    var r1 := [1.0, 46.0 / 25.0, 1.0, 0.0, 0.0, 0.0];
    var r2 := [1.0, 157.0 / 50.0, 549.0 / 125.0, 157.0 / 50.0, 1.0, 0.0];
    var r3 := [1.0, 91.0 / 25.0, 3481.0 / 500.0, 2119.0 / 250.0, 3481.0 / 500.0, 91.0 / 25.0];
    var r4 := [1.0, 207.0 / 50.0, 4891.0 / 500.0, 15597.0 / 1000.0, 9081.0 / 500.0, 15597.0 / 1000.0];
    var r5 := [1.0, 136.0 / 25.0, 4041.0 / 250.0, 40567.0 / 1250.0, 482201.0 / 10000.0, 274023.0 / 5000.0];
    RowStep(m, 0, 1, -23.0 / 25.0, r0, r1);
    RowStep(m, 0, 2, -13.0 / 20.0, r1, r2);
    RowStep(m, 0, 3, -1.0 / 4.0, r2, r3);
    RowStep(m, 0, 4, -1.0 / 4.0, r3, r4);
    RowStep(m, 0, 5, -13.0 / 20.0, r4, r5);
  }

  // The product over the second, fourth, ... bound.
  lemma BoundRow1(m: seq<real>)
    requires AreBounds(m)
    ensures RowIs(m, 1, 5, [1.0, 126.0 / 25.0, 8934.0 / 625.0, 86184.0 / 3125.0, 625781.0 / 15625.0,
      140868.0 / 3125.0])
  {
    FirstRow(m, 1);
    var r0 := [1.0, 0.0, 0.0, 0.0, 0.0, 0.0];
    var r1 := [1.0, 8.0 / 5.0, 1.0, 0.0, 0.0, 0.0];
    var r2 := [1.0, 63.0 / 25.0, 434.0 / 125.0, 63.0 / 25.0, 1.0, 0.0];
    var r3 := [1.0, 63.0 / 25.0, 559.0 / 125.0, 126.0 / 25.0, 559.0 / 125.0, 63.0 / 25.0];
    var r4 := [1.0, 86.0 / 25.0, 4869.0 / 625.0, 36482.0 / 3125.0, 8488.0 / 625.0, 36482.0 / 3125.0];
    var r5 := [1.0, 126.0 / 25.0, 8934.0 / 625.0, 86184.0 / 3125.0, 625781.0 / 15625.0, 140868.0 / 3125.0];
    RowStep(m, 1, 1, -4.0 / 5.0, r0, r1);
    RowStep(m, 1, 2, -23.0 / 50.0, r1, r2);
    RowStep(m, 1, 3, 0.0, r2, r3);
    RowStep(m, 1, 4, -23.0 / 50.0, r3, r4);
    RowStep(m, 1, 5, -4.0 / 5.0, r4, r5);
  }

  // The exact product over the first, third, ... cosine.
  lemma StartRow0(lsp: seq<Word16>)
    requires IsStart(lsp)
    ensures RowIs(Cosines(lsp), 0, 5, [1.0, -1875.0 / 1024.0, 13080895.0 / 4194304.0, -16662358125.0 / 4294967296.0,
      1305085085065.0 / 274877906944.0, -1355050232416875.0 / 281474976710656.0])
  {
    var c := Cosines(lsp);
    FirstRow(c, 0);
    var r0 := [1.0, 0.0, 0.0, 0.0, 0.0, 0.0];
    var r1 := [1.0, -1875.0 / 1024.0, 1.0, 0.0, 0.0, 0.0];
    var r2 := [1.0, -6375.0 / 2048.0, 9116179.0 / 2097152.0, -6375.0 / 2048.0, 1.0, 0.0];
    var r3 := [1.0, -7375.0 / 2048.0, 14400831.0 / 2097152.0, -4481858375.0 / 536870912.0, 14400831.0 / 2097152.0,
      -7375.0 / 2048.0];
    var r4 := [1.0, -6375.0 / 2048.0, 12810483.0 / 2097152.0, -1153766625.0 / 134217728.0,
      1327313423957.0 / 137438953472.0, -1153766625.0 / 134217728.0];
    var r5 := [1.0, -1875.0 / 1024.0, 13080895.0 / 4194304.0, -16662358125.0 / 4294967296.0,
      1305085085065.0 / 274877906944.0, -1355050232416875.0 / 281474976710656.0];
    RowStep(c, 0, 1, 1875.0 / 2048.0, r0, r1);
    RowStep(c, 0, 2, 2625.0 / 4096.0, r1, r2);
    RowStep(c, 0, 3, 125.0 / 512.0, r2, r3);
    RowStep(c, 0, 4, -125.0 / 512.0, r3, r4);
    RowStep(c, 0, 5, -2625.0 / 4096.0, r4, r5);
  }

  // The exact product over the second, fourth, ... cosine.
  lemma StartRow1(lsp: seq<Word16>)
    requires IsStart(lsp)
    ensures RowIs(Cosines(lsp), 1, 5, [1.0, 0.0, 6893395.0 / 4194304.0, 0.0, 8977960376665.0 / 4398046511104.0,
      0.0])
  {
    var c := Cosines(lsp);
    FirstRow(c, 1);
    var r0 := [1.0, 0.0, 0.0, 0.0, 0.0, 0.0];
    var r1 := [1.0, -1625.0 / 1024.0, 1.0, 0.0, 0.0, 0.0];
    var r2 := [1.0, -5125.0 / 2048.0, 7241179.0 / 2097152.0, -5125.0 / 2048.0, 1.0, 0.0];
    var r3 := [1.0, -5125.0 / 2048.0, 9338331.0 / 2097152.0, -5125.0 / 1024.0, 9338331.0 / 2097152.0,
      -5125.0 / 2048.0];
    var r4 := [1.0, -1625.0 / 1024.0, 13261591.0 / 4194304.0, -14734341375.0 / 4294967296.0, 9067287.0 / 2097152.0,
      -14734341375.0 / 4294967296.0];
    var r5 := [1.0, 0.0, 6893395.0 / 4194304.0, 0.0, 8977960376665.0 / 4398046511104.0, 0.0];
    RowStep(c, 1, 1, 1625.0 / 2048.0, r0, r1);
    RowStep(c, 1, 2, 1875.0 / 4096.0, r1, r2);
    RowStep(c, 1, 3, 0.0, r2, r3);
    RowStep(c, 1, 4, -1875.0 / 4096.0, r3, r4);
    RowStep(c, 1, 5, -1625.0 / 2048.0, r4, r5);
  }

  /** It meets every condition of LspAz. */
  lemma StartInRange(lsp: seq<Word16>)
    requires IsStart(lsp)
    ensures Tame(lsp, 0, 5) && Tame(lsp, 1, 5) && InQ12(lsp, 5)
  {
    StartTame(lsp);
    StartInQ12(lsp);
  }

  lemma StartTame(lsp: seq<Word16>)
    requires IsStart(lsp)
    ensures Tame(lsp, 0, 5) && Tame(lsp, 1, 5)
  {
    hide Coef, Tame;
    var m := [-0.92, -0.8, -0.65, -0.46, -0.25, 0.0, -0.25, -0.46, -0.65, -0.8];
    BoundRow0(m);
    BoundRow1(m);
    TameBelow(lsp, m, 0, 5);
    TameBelow(lsp, m, 1, 5);
  }

  lemma StartInQ12(lsp: seq<Word16>)
    requires IsStart(lsp)
    ensures InQ12(lsp, 5)
  {
    hide Coef;
    StartRow0(lsp);
    StartRow1(lsp);
    var c := Cosines(lsp);
    forall i | 1 <= i <= 10 ensures -7.99 <= Predictor(lsp, 5, i) <= 7.99 {
      Palindrome(c, 0, 5, i);
      Palindrome(c, 0, 5, i - 1);
      Palindrome(c, 1, 5, i);
      Palindrome(c, 1, 5, i - 1);
    }
  }
}
