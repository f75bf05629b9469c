/** The scores of the closed-loop pitch search (PITCH_A.C): the scalar product of the backward-filtered
    target and the excitation at a lag is that of the target and the filtered excitation. */
module PitchMatch {
  import opened BasicOp
  import opened Ld8a
  import opened CorFunc
  import opened PulseEnergy
  import opened PulseCorrelation
  import opened Pitch

  // Sample n of the first k excitation samples filtered by h.
  ghost function Convolved(e: seq<Word16>, h: seq<Word16>, k: nat, n: int): int
    requires |e| == |h| == L_SUBFR && k <= L_SUBFR && 0 <= n < L_SUBFR
  {
    if k == 0 then 0 else Convolved(e, h, k - 1, n) + Product(e[k - 1], At(h, k - 1, n))
  }

  // The target against those samples, over m < n.
  ghost function Match(x: seq<Word16>, e: seq<Word16>, h: seq<Word16>, k: nat, n: nat): int
    requires |x| == |e| == |h| == L_SUBFR && k <= L_SUBFR && n <= L_SUBFR
  {
    if n == 0 then 0 else Match(x, e, h, k, n - 1) + Product(x[n - 1], Convolved(e, h, k, n - 1))
  }

  lemma {:induction false} MatchStep(x: seq<Word16>, e: seq<Word16>, h: seq<Word16>, k: nat, n: nat)
    requires |x| == |e| == |h| == L_SUBFR && 0 < k <= L_SUBFR && n <= L_SUBFR
    ensures Match(x, e, h, k, n) == Match(x, e, h, k - 1, n) + Product(e[k - 1], Against(x, h, k - 1, n))
  {
    hide Product, At;
    if n == 0 {
      ZeroTimes(e[k - 1]);
    } else {
      MatchStep(x, e, h, k, n - 1);
      Distributes(x[n - 1], Convolved(e, h, k - 1, n - 1), e[k - 1], At(h, k - 1, n - 1), Against(x, h, k - 1, n - 1));
    }
  }

  lemma ZeroTimes(x: int)
    ensures Product(x, 0) == 0
  {}

  lemma Distributes(x: int, c: int, e: int, a: int, s: int)
    ensures Product(x, c + Product(e, a)) == Product(x, c) + Product(e, s + Product(x, a)) - Product(e, s)
  {
    assert x * (c + e * a) == x * c + x * (e * a);
    assert e * (s + x * a) == e * s + e * (x * a);
    assert x * (e * a) == e * (x * a);
  }

  lemma {:induction false} MatchOfNothing(x: seq<Word16>, e: seq<Word16>, h: seq<Word16>, n: nat)
    requires |x| == |e| == |h| == L_SUBFR && n <= L_SUBFR
    ensures Match(x, e, h, 0, n) == 0
  {
    if n > 0 { MatchOfNothing(x, e, h, n - 1); }
  }

  // The excitation against the backward correlations.
  ghost function BackwardDot(x: seq<Word16>, e: seq<Word16>, h: seq<Word16>, k: nat): int
    requires |x| == |e| == |h| == L_SUBFR && k <= L_SUBFR
  {
    if k == 0 then 0 else BackwardDot(x, e, h, k - 1) + Product(e[k - 1], Backward(x, h, k - 1, L_SUBFR))
  }

  /** Backward filtering is the adjoint of filtering for any excitation. */
  lemma {:induction false} ExcitationAdjoint(x: seq<Word16>, e: seq<Word16>, h: seq<Word16>, k: nat)
    requires |x| == |e| == |h| == L_SUBFR && k <= L_SUBFR && Unsaturated(x, h)
    ensures BackwardDot(x, e, h, k) == 2 * Match(x, e, h, k, L_SUBFR)
  {
    hide Unsaturated, Backward, Against, Product;
    if k == 0 {
      MatchOfNothing(x, e, h, L_SUBFR);
    } else {
      ExcitationAdjoint(x, e, h, k - 1);
      MatchStep(x, e, h, k, L_SUBFR);
      BackwardIsAgainst(x, h, k - 1, L_SUBFR);
      TwiceProduct(e[k - 1], Against(x, h, k - 1, L_SUBFR));
    }
  }

  lemma TwiceProduct(x: int, y: int)
    ensures Product(x, 2 * y) == 2 * Product(x, y)
  {}

  // ----- The scalar product of the search

  // d against n samples of v from position p, exactly.
  ghost function Exact(d: seq<Word16>, v: seq<Word16>, p: int, n: nat): int
    requires n <= |d| && 0 <= p && p + n <= |v|
  {
    if n == 0 then 0 else Exact(d, v, p, n - 1) + Product(v[p + n - 1], d[n - 1])
  }

  ghost predicate SumFits(d: seq<Word16>, v: seq<Word16>, p: int, n: nat)
    requires n <= |d| && 0 <= p && p + n <= |v|
  {
    MIN_32 <= 2 * Exact(d, v, p, n) <= MAX_32
  }

  ghost predicate PartsFit(d: seq<Word16>, v: seq<Word16>, p: int, n: nat)
    requires n <= |d| && 0 <= p && p + n <= |v|
  {
    forall m :: 0 <= m <= n ==> SumFits(d, v, p, m)
  }

  /** Dot is twice the exact scalar product when no partial sum leaves 32 bits. */
  lemma {:induction false} DotIsExact(d: seq<Word16>, v: seq<Word16>, p: int, n: nat)
    requires n <= |d| && 0 <= p && p + n <= |v| && forall i :: 0 <= i < |d| ==> d[i] > MIN_16
    requires PartsFit(d, v, p, n)
    ensures Dot(d, v, p, n) as int == 2 * Exact(d, v, p, n)
  {
    if n > 0 {
      DotIsExact(d, v, p, n - 1);
      ProductBound(d[n - 1], v[p + n - 1]);
      assert SumFits(d, v, p, n);
      assert Product(v[p + n - 1], d[n - 1]) == Product(d[n - 1], v[p + n - 1]);
    }
  }

  ghost function Loudness(e: seq<Word16>, k: nat): int
    requires k <= |e|
  {
    if k == 0 then 0 else Loudness(e, k - 1) + Abs(e[k - 1])
  }

  lemma {:induction false} ExactNear(x: seq<Word16>, e: seq<Word16>, h: seq<Word16>, v: seq<Word16>, p: int, k: nat)
    requires |x| == |e| == |h| == L_SUBFR && k <= L_SUBFR && 0 <= p && p + L_SUBFR <= |v|
    requires e == v[p..p + L_SUBFR]
    ensures Abs(Product(Unit(x, h), Exact(Correlations(x, h), v, p, k)) - BackwardDot(x, e, h, k))
         <= Product(Unit(x, h), Loudness(e, k))
  {
    hide Correlations, Unit, Backward, Product;
    var t, d := Unit(x, h), Correlations(x, h);
    ZeroTimes(t);
    if k > 0 {
      ExactNear(x, e, h, v, p, k - 1);
      WordNear(x, h, k - 1);
      assert e[k - 1] == v[p + k - 1];
      OneSample(t, Exact(d, v, p, k - 1), e[k - 1], d[k - 1], Backward(x, h, k - 1, L_SUBFR), Loudness(e, k - 1));
    }
  }

  lemma OneSample(t: int, sum: int, e: int, d: int, y: int, l: int)
    requires t > 0 && -t <= Product(t, d) - y <= 0
    ensures Abs(Product(t, sum + Product(e, d)) - Product(t, sum) - Product(e, y))
         <= Product(t, l + Abs(e)) - Product(t, l)
  {
    var r := Product(t, d) - y;
    assert t * (sum + e * d) == t * sum + t * (e * d);
    assert t * (e * d) == e * (t * d);
    assert e * (t * d) - e * y == e * r;
    assert t * (l + Abs(e)) == t * l + t * Abs(e);
    MulMono(-r, t, Abs(e));
    assert Abs(e * r) == Abs(e) * -r;
  }

  /** The score of a lag is twice the scalar product of the target and the filtered excitation one lag
      back, divided by half the power of two of Cor_h_X, to one unit for each unit of excitation. */
  lemma LagScoreMatched(x: seq<Word16>, h: seq<Word16>, exc: seq<Word16>, at: int, t: int, e: seq<Word16>)
    requires |x| == |h| == L_SUBFR && 0 <= t <= at && at + L_SUBFR <= |exc| && Unsaturated(x, h)
    requires PartsFit(Correlations(x, h), exc, at - t, L_SUBFR) && e == exc[at - t..at - t + L_SUBFR]
    ensures Matched(LagScore(Correlations(x, h), exc, at, t), Unit(x, h), Match(x, e, h, L_SUBFR, L_SUBFR),
                    Loudness(e, L_SUBFR))
  {
    hide *;
    ScoreIsDot(Correlations(x, h), exc, at, t);
    DotMatched(x, h, exc, at - t, e);
  }

  // 4 match / unit, to 2 loudness.
  ghost predicate Matched(score: int, unit: int, match': int, loudness: int) {
    -2 * Product(unit, loudness) <= Product(unit, score) - 4 * match' <= 2 * Product(unit, loudness)
  }

  lemma DotMatched(x: seq<Word16>, h: seq<Word16>, exc: seq<Word16>, p: int, e: seq<Word16>)
    requires |x| == |h| == L_SUBFR && 0 <= p && p + L_SUBFR <= |exc| && Unsaturated(x, h)
    requires PartsFit(Correlations(x, h), exc, p, L_SUBFR) && e == exc[p..p + L_SUBFR]
    ensures Matched(Dot(Correlations(x, h), exc, p, L_SUBFR), Unit(x, h), Match(x, e, h, L_SUBFR, L_SUBFR),
                    Loudness(e, L_SUBFR))
  {
    hide Correlations, Unit, Product, Exact, PartsFit, Match, Loudness, Dot, Unsaturated, BackwardDot;
    SmallWords(x, h);
    DotIsExact(Correlations(x, h), exc, p, L_SUBFR);
    ExcitationAdjoint(x, e, h, L_SUBFR);
    ExactNear(x, e, h, exc, p, L_SUBFR);
    TwiceProduct(Unit(x, h), Exact(Correlations(x, h), exc, p, L_SUBFR));
  }

  lemma ScoreIsDot(d: seq<Word16>, exc: seq<Word16>, at: int, t: int)
    requires |d| == L_SUBFR && 0 <= t <= at && at + L_SUBFR <= |exc|
    ensures LagScore(d, exc, at, t) == Dot(d, exc, at - t, L_SUBFR)
  {}

  lemma SmallWords(x: seq<Word16>, h: seq<Word16>)
    requires |x| == |h| == L_SUBFR
    ensures forall i :: 0 <= i < L_SUBFR ==> Correlations(x, h)[i] > MIN_16
  {
    hide Correlations, Backward, DownShift, Peak;
    ThirteenBits(x, h);
  }
}
