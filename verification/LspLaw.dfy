/** The quantiser of the line spectral frequencies against exact sums: reconstruction and prediction
    written out, and the three distances as quadratic forms. */
module LspLaw {
  import opened BasicOp
  import opened Ld8a
  import opened LspPredictor
  import opened LspQuant

  // ----- Reconstruction

  /** The first five words come from the second-stage row of c1, the last five from that of c2. */
  lemma VectorWords(cb: Codebooks, code: Code, j: nat)
    requires cb.Valid() && code.Valid() && j < M
    ensures j < 5 ==> Vector(cb, code)[j] == Clamp16(cb.first[code.c0][j] as int + cb.second[code.c1][j] as int)
    ensures j >= 5 ==> Vector(cb, code)[j] == Clamp16(cb.first[code.c0][j] as int + cb.second[code.c2][j] as int)
  {}

  // The four past vectors with their own coefficients, newest first.
  function Predicted(prev: seq<Row>, fg: seq<Row>, j: nat): int
    requires IsTable(prev, MA_NP) && IsTable(fg, MA_NP) && j < M
  {
    (prev[0][j] as int) * (fg[0][j] as int) + (prev[1][j] as int) * (fg[1][j] as int)
    + (prev[2][j] as int) * (fg[2][j] as int) + (prev[3][j] as int) * (fg[3][j] as int)
  }

  lemma PredictedExactly(prev: seq<Row>, fg: seq<Row>, j: nat)
    requires IsTable(prev, MA_NP) && IsTable(fg, MA_NP) && j < M
    ensures Prediction(prev, fg, j, MA_NP) == Predicted(prev, fg, j)
  {
    PredictionStep(prev, fg, j, 1);
    PredictionStep(prev, fg, j, 2);
    PredictionStep(prev, fg, j, 3);
    PredictionStep(prev, fg, j, 4);
    assert Prediction(prev, fg, j, 0) == 0;
    hide Prediction;
  }

  lemma PredictionStep(prev: seq<Row>, fg: seq<Row>, j: nat, n: nat)
    requires IsTable(prev, MA_NP) && IsTable(fg, MA_NP) && j < M && 0 < n <= MA_NP
    ensures Prediction(prev, fg, j, n)
         == Prediction(prev, fg, j, n - 1) + (prev[n - 1][j] as int) * (fg[n - 1][j] as int)
  {}

  /** A composed word is the elementary word and the four past ones, each with its own coefficient in Q15. */
  lemma ComposedExactly(ele: Word16, sum: Word16, prev: seq<Row>, fg: seq<Row>, j: nat)
    requires IsTable(prev, MA_NP) && IsTable(fg, MA_NP) && j < M && sum > MIN_16 && NoMinimum(fg, j)
    requires MacFits(2 * ((ele as int) * (sum as int)), prev, fg, j)
    ensures ComposeWord(ele, sum, prev, fg, j) as int
         == ((ele as int) * (sum as int) + Predicted(prev, fg, j)) / 0x8000
  {
    hide MacColumn, LMult, Predicted;
    LMultExact(ele, sum);
    MacIsExact(LMult(ele, sum), prev, fg, j, MA_NP);
    PredictedExactly(prev, fg, j);
    HalfDivision((ele as int) * (sum as int) + Predicted(prev, fg, j));
    hide ComposeWord, MacFits;
    ComposeUnfolds(ele, sum, prev, fg, j);
  }

  lemma ComposeUnfolds(ele: Word16, sum: Word16, prev: seq<Row>, fg: seq<Row>, j: nat)
    requires IsTable(prev, MA_NP) && IsTable(fg, MA_NP) && j < M
    ensures ComposeWord(ele, sum, prev, fg, j) as int == MacColumn(LMult(ele, sum), prev, fg, j, MA_NP) / 0x1_0000
  {
    hide MacColumn, LMult;
  }

  lemma HalfDivision(x: int)
    ensures (2 * x) / 0x1_0000 == x / 0x8000
  {
    DivBounds(x, 0x8000);
    DivUnique(2 * x, 0x1_0000, x / 0x8000);
  }

  /** An extracted word is the word less the same prediction, times the inverse coefficient in Q12. */
  lemma ExtractedExactly(lsp: Word16, inv: Word16, sum: Word16, prev: seq<Row>, fg: seq<Row>, j: nat)
    requires IsTable(prev, MA_NP) && IsTable(fg, MA_NP) && j < M
    requires 0 <= inv && NoMinimum(fg, j) && NothingSaturates(lsp, inv, sum, prev, fg, j)
    ensures var target := (0x8000 * (lsp as int) - Predicted(prev, fg, j)) / 0x8000;
      ExtractWord(lsp, inv, prev, fg, j) as int == (target * (inv as int)) / 0x1000
  {
    ExtractIsExact(lsp, inv, sum, prev, fg, j);
    PredictedExactly(prev, fg, j);
    hide ExtractWord, Predicted, Prediction, NothingSaturates;
    HalfDivision(0x8000 * (lsp as int) - Predicted(prev, fg, j));
  }

  // ----- Distances

  // Twice the sum of floor(w t / s) t, over the words lo to n - 1.
  function Rounded(w: seq<int>, t: seq<int>, s: int, lo: nat, n: nat): int
    requires lo <= n <= |w| == |t| && s > 0
  {
    if n == lo then 0 else Rounded(w, t, s, lo, n - 1) + 2 * (((w[n - 1] * t[n - 1]) / s) * t[n - 1])
  }

  // The sum of w t^2, and that of |t|.
  function Quadratic(w: seq<int>, t: seq<int>, lo: nat, n: nat): int
    requires lo <= n <= |w| == |t|
  {
    if n == lo then 0 else Quadratic(w, t, lo, n - 1) + w[n - 1] * (t[n - 1] * t[n - 1])
  }

  function Magnitude(t: seq<int>, lo: nat, n: nat): int
    requires lo <= n <= |t|
  {
    if n == lo then 0 else Magnitude(t, lo, n - 1) + Abs(t[n - 1])
  }

  /** The rounded form is twice the quadratic form, to two units for each unit of difference. */
  lemma {:induction false} RoundedNear(w: seq<int>, t: seq<int>, s: int, lo: nat, n: nat)
    requires lo <= n <= |w| == |t| && s > 0
    ensures Abs(s * Rounded(w, t, s, lo, n) - 2 * Quadratic(w, t, lo, n)) <= 2 * s * Magnitude(t, lo, n)
  {
    if n > lo {
      RoundedNear(w, t, s, lo, n - 1);
      TermNear(w[n - 1], t[n - 1], s);
      var q := ((w[n - 1] * t[n - 1]) / s) * t[n - 1];
      ThreeSums(s, Rounded(w, t, s, lo, n - 1), 2 * q, Magnitude(t, lo, n - 1), Abs(t[n - 1]));
    } else {
      assert s * 0 == 0;
    }
  }

  lemma ThreeSums(s: int, a: int, b: int, c: int, d: int)
    ensures s * (a + b) == s * a + s * b && 2 * s * (c + d) == 2 * s * c + 2 * s * d
  {}

  lemma TermNear(w: int, t: int, s: int)
    requires s > 0
    ensures Abs(s * (2 * (((w * t) / s) * t)) - 2 * (w * (t * t))) <= 2 * s * Abs(t)
  {
    DivBounds(w * t, s);
    QuotientNear(w, t, s, (w * t) / s);
  }

  lemma QuotientNear(w: int, t: int, s: int, q: int)
    requires s * q <= w * t <= s * q + s
    ensures Abs(s * (2 * (q * t)) - 2 * (w * (t * t))) <= 2 * s * Abs(t)
  {
    var r := w * t - s * q;
    Associate(w, t, s, q, r);
    RestBound(r, t, s);
    TwiceOut(s, q * t);
  }

  lemma TwiceOut(s: int, x: int)
    ensures s * (2 * x) == 2 * (s * x)
  {}

  lemma Associate(w: int, t: int, s: int, q: int, r: int)
    requires w * t == s * q + r
    ensures w * (t * t) == s * (q * t) + r * t
  {
    assert w * (t * t) == (w * t) * t;
    assert (s * q + r) * t == (s * q) * t + r * t;
    assert (s * q) * t == s * (q * t);
  }

  lemma RestBound(r: int, t: int, s: int)
    requires 0 <= r <= s
    ensures Abs(2 * (r * t)) <= 2 * s * Abs(t)
  {
    MulMono(r, s, Abs(t));
    if t < 0 { assert r * t == -(r * -t); }
  }

  // The terms of a rounded form with weights from zero up are never negative, so it only grows.
  lemma {:induction false} RoundedGrows(w: seq<int>, t: seq<int>, s: int, lo: nat, m: nat, n: nat)
    requires lo <= m <= n <= |w| == |t| && s > 0 && forall i :: lo <= i < n ==> w[i] >= 0
    ensures 0 <= Rounded(w, t, s, lo, m) <= Rounded(w, t, s, lo, n)
    decreases n - lo + n - m
  {
    if m < n {
      RoundedGrows(w, t, s, lo, m, n - 1);
      TermSign(w[n - 1], t[n - 1], s);
    } else if lo < n {
      RoundedGrows(w, t, s, lo, n - 1, n - 1);
      TermSign(w[n - 1], t[n - 1], s);
    }
  }

  lemma TermSign(w: int, t: int, s: int)
    requires w >= 0 && s > 0
    ensures ((w * t) / s) * t >= 0
  {
    var q := (w * t) / s;
    DivBounds(w * t, s);
    if t >= 0 {
      MulMono(0, w, t);
      MulMono(0, q, t);
    } else {
      MulMono(0, w, -t);
      assert w * t == -(w * -t);
      MulMono(0, -q, -t);
      assert q * t == -q * -t;
    }
  }

  lemma {:induction false} SquareForm(w: seq<int>, t: seq<int>, n: nat)
    requires n <= |w| == |t| && forall i :: 0 <= i < n ==> w[i] == 1
    ensures Rounded(w, t, 1, 0, n) == 2 * Quadratic(w, t, 0, n)
  {
    if n > 0 {
      SquareForm(w, t, n - 1);
      assert (1 * t[n - 1]) / 1 == t[n - 1];
    }
  }

  // The exact differences of a first-stage row.
  function Differences(target: Row, row: Row): (t: seq<int>)
    requires |target| == |row| == M
    ensures |t| == M
  {
    seq(M, i requires 0 <= i < M => target[i] as int - row[i] as int)
  }

  function Ones(): (w: seq<int>)
    ensures |w| == M && forall i :: 0 <= i < M ==> w[i] == 1
  {
    seq(M, _ => 1)
  }

  predicate AllWords(t: seq<int>) { forall i :: 0 <= i < |t| ==> -0x7fff <= t[i] <= 0x7fff }

  /** The distance of the preselection is twice the sum of the squared differences, when that fits. */
  lemma {:induction false} PreDistanceExactly(target: Row, row: Row, n: nat)
    requires |target| == |row| == M && n <= M && AllWords(Differences(target, row))
    requires Rounded(Ones(), Differences(target, row), 1, 0, n) <= MAX_32
    ensures PreDistance(target, row, n) as int == 2 * Quadratic(Ones(), Differences(target, row), 0, n)
  {
    SquareForm(Ones(), Differences(target, row), n);
    PreDistanceRounded(target, row, n);
  }

  lemma {:induction false} PreDistanceRounded(target: Row, row: Row, n: nat)
    requires |target| == |row| == M && n <= M && AllWords(Differences(target, row))
    requires Rounded(Ones(), Differences(target, row), 1, 0, n) <= MAX_32
    ensures PreDistance(target, row, n) as int == Rounded(Ones(), Differences(target, row), 1, 0, n)
  {
    hide LMac;
    var w, t := Ones(), Differences(target, row);
    RoundedGrows(w, t, 1, 0, n, n);
    if n > 0 {
      RoundedGrows(w, t, 1, 0, n - 1, n);
      PreDistanceRounded(target, row, n - 1);
      assert (1 * t[n - 1]) / 1 == t[n - 1];
      TermAdds(PreDistance(target, row, n - 1), t[n - 1], t[n - 1]);
    }
  }

  lemma TermAdds(acc: Word32, x: Word16, y: Word16)
    requires 0 <= acc && -0x7fff <= y <= 0x7fff && 0 <= (x as int) * (y as int)
    requires acc + 2 * ((x as int) * (y as int)) <= MAX_32
    ensures LMac(acc, x, y) as int == acc + 2 * ((x as int) * (y as int))
  {
    ProductBound(x, y);
  }

  // The exact differences of a second-stage row.
  function Remainders(target: Row, base: Row, row: Row): (t: seq<int>)
    requires |target| == |base| == |row| == M
    ensures |t| == M
  {
    seq(M, i requires 0 <= i < M => target[i] as int - base[i] as int - row[i] as int)
  }

  function Integers(w: Row): (v: seq<int>)
    ensures |v| == |w| && forall i :: 0 <= i < |w| ==> v[i] == w[i] as int
  {
    seq(|w|, i requires 0 <= i < |w| => w[i] as int)
  }

  /** The distance of the second stage is the weighted quadratic form in Q15, up to the rounding of each
      weight, when that fits. */
  lemma DistanceNear(target: Row, base: Row, wegt: Row, row: Row, lo: nat, n: nat)
    requires |target| == |base| == |wegt| == |row| == M && lo <= n <= M
    requires AllWords(Differences(target, base)) && AllWords(Remainders(target, base, row))
    requires forall i :: 0 <= i < M ==> wegt[i] >= 0
    requires Rounded(Integers(wegt), Remainders(target, base, row), 0x8000, lo, n) <= MAX_32
    ensures var w, t := Integers(wegt), Remainders(target, base, row);
      Abs(0x8000 * (Distance(target, base, wegt, row, lo, n) as int) - 2 * Quadratic(w, t, lo, n))
      <= 0x1_0000 * Magnitude(t, lo, n)
  {
    hide Distance, Rounded, Quadratic, Magnitude;
    DistanceRounded(target, base, wegt, row, lo, n);
    RoundedNear(Integers(wegt), Remainders(target, base, row), 0x8000, lo, n);
  }

  lemma {:induction false} DistanceRounded(target: Row, base: Row, wegt: Row, row: Row, lo: nat, n: nat)
    requires |target| == |base| == |wegt| == |row| == M && lo <= n <= M
    requires AllWords(Differences(target, base)) && AllWords(Remainders(target, base, row))
    requires forall i :: 0 <= i < M ==> wegt[i] >= 0
    requires Rounded(Integers(wegt), Remainders(target, base, row), 0x8000, lo, n) <= MAX_32
    ensures Distance(target, base, wegt, row, lo, n) as int
         == Rounded(Integers(wegt), Remainders(target, base, row), 0x8000, lo, n)
  {
    hide LMac, Mult;
    var w, t := Integers(wegt), Remainders(target, base, row);
    RoundedGrows(w, t, 0x8000, lo, n, n);
    if n > lo {
      RoundedGrows(w, t, 0x8000, lo, n - 1, n);
      DistanceRounded(target, base, wegt, row, lo, n - 1);
      assert Differences(target, base)[n - 1] == target[n - 1] as int - base[n - 1] as int;
      WeightedWord(wegt[n - 1], t[n - 1]);
      TermSign(w[n - 1], t[n - 1], 0x8000);
      TermAdds(Distance(target, base, wegt, row, lo, n - 1), Mult(wegt[n - 1], t[n - 1]), t[n - 1]);
    }
  }

  lemma WeightedWord(w: Word16, t: Word16)
    requires w >= 0 && -0x7fff <= t <= 0x7fff
    ensures Mult(w, t) as int == ((w as int) * (t as int)) / 0x8000
  {
    var p := (w as int) * (t as int);
    ProductBound(w, t);
    DivBounds(p, 0x8000);
  }

  // The differences of the rebuilt vector, brought to the weight of the newest vector.
  function Scaled(buf: Row, target: Row, sum: Row): (t: seq<int>)
    requires |buf| == |target| == |sum| == M
    ensures |t| == M
  {
    seq(M, i requires 0 <= i < M => ((buf[i] as int - target[i] as int) * (sum[i] as int)) / 0x8000)
  }

  // No weighted difference leaves 32 bits when it is brought to full scale.
  predicate WeightsFit(w: Row, t: seq<int>)
    requires |w| == |t|
  {
    forall i :: 0 <= i < |w| ==> -0x400_0000 <= (w[i] as int) * t[i] < 0x400_0000
  }

  /** The distortion that decides between the two modes is the weighted quadratic form in Q11, up to the
      rounding of each weight, when that fits. */
  lemma DistortionNear(wegt: Row, buf: Row, target: Row, sum: Row, n: nat)
    requires |wegt| == |buf| == |target| == |sum| == M && n <= M
    requires AllWords(Differences(buf, target)) && forall i :: 0 <= i < M ==> wegt[i] >= 0 && sum[i] >= 0
    requires WeightsFit(wegt, Scaled(buf, target, sum))
    requires Rounded(Integers(wegt), Scaled(buf, target, sum), 2048, 0, n) <= MAX_32
    ensures var w, t := Integers(wegt), Scaled(buf, target, sum);
      Abs(2048 * (TotalDistortion(wegt, buf, target, sum, n) as int) - 2 * Quadratic(w, t, 0, n))
      <= 4096 * Magnitude(t, 0, n)
  {
    hide TotalDistortion, Rounded, Quadratic, Magnitude, Scaled, WeightsFit;
    DistortionRounded(wegt, buf, target, sum, n);
    RoundedNear(Integers(wegt), Scaled(buf, target, sum), 2048, 0, n);
  }

  lemma {:induction false} DistortionRounded(wegt: Row, buf: Row, target: Row, sum: Row, n: nat)
    requires |wegt| == |buf| == |target| == |sum| == M && n <= M
    requires AllWords(Differences(buf, target)) && forall i :: 0 <= i < M ==> wegt[i] >= 0 && sum[i] >= 0
    requires WeightsFit(wegt, Scaled(buf, target, sum))
    requires Rounded(Integers(wegt), Scaled(buf, target, sum), 2048, 0, n) <= MAX_32
    ensures TotalDistortion(wegt, buf, target, sum, n) as int
         == Rounded(Integers(wegt), Scaled(buf, target, sum), 2048, 0, n)
  {
    hide LMac, Mult, LShr, LMult;
    var w, t := Integers(wegt), Scaled(buf, target, sum);
    RoundedGrows(w, t, 2048, 0, n, n);
    if n > 0 {
      RoundedGrows(w, t, 2048, 0, n - 1, n);
      DistortionRounded(wegt, buf, target, sum, n - 1);
      var d := Differences(buf, target)[n - 1];
      assert d == buf[n - 1] as int - target[n - 1] as int;
      DifferenceWord(d, sum[n - 1]);
      ShiftedWeight(wegt[n - 1], t[n - 1]);
      TermSign(w[n - 1], t[n - 1], 2048);
      TermAdds(TotalDistortion(wegt, buf, target, sum, n - 1), ((wegt[n - 1] as int) * t[n - 1]) / 2048, t[n - 1]);
    }
  }

  lemma DifferenceWord(d: Word16, sum: Word16)
    requires -0x7fff <= d <= 0x7fff && sum >= 0
    ensures Mult(d, sum) as int == ((d as int) * (sum as int)) / 0x8000
    ensures -0x7fff <= ((d as int) * (sum as int)) / 0x8000 <= 0x7fff
  {
    var p := (d as int) * (sum as int);
    MulMono(-0x7fff, d, sum);
    MulMono(d, 0x7fff, sum);
    MulMono(sum, 0x7fff, 0x7fff);
    DivBounds(p, 0x8000);
  }

  lemma ShiftedWeight(w: Word16, t: Word16)
    requires w >= 0 && -0x400_0000 <= (w as int) * (t as int) < 0x400_0000
    ensures ExtractH(LShl(LMult(w, t), 4)) as int == ((w as int) * (t as int)) / 2048
  {
    var p := (w as int) * (t as int);
    ProductBound(w, t);
    assert TwoTo(4) == 16;
    assert LMult(w, t) as int == 2 * p;
    DivBounds(p, 2048);
    DivUnique(32 * p, 0x1_0000, p / 2048);
  }
}
