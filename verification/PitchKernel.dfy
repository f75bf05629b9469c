/** The fractional prediction (PRED_LT3.C) as an interpolation: a past sample is weighted by the
    distance of its position from the fractional lag, in thirds of a sample. */
module PitchKernel {
  import opened BasicOp
  import opened Ld8a
  import opened Pitch

  // Above the sum of the magnitudes of the weights, and a magnitude that cannot saturate with them.
  const WEIGHTS := 65535
  const LOUDEST := 16384

  // The weight of the sample at offset u, for its distance of |3 u + frac| thirds from the lag.
  function Weight(u: int, frac: int): Word16
    requires Abs(3 * u + frac) <= 30
  {
    INTER_3L[Abs(3 * u + frac)]
  }

  // Offset, from one whole lag back, of the sample before the fractional lag.
  function Before(frac: int): int { if frac > 0 then -1 else 0 }

  // The sum over the offsets lo to hi - 1 of the past samples, each weighted by the distance of
  // its offset from -frac / 3.
  function Window(v: seq<Word16>, T0: int, frac: int, lo: int, hi: int): int
    requires InWindow(v, T0, frac) && Before(frac) - 9 <= lo <= hi <= Before(frac) + 11
    decreases hi - lo
  {
    if hi == lo then 0
    else Window(v, T0, frac, lo, hi - 1) + Product(v[|v| - T0 + hi - 1], Weight(hi - 1, frac))
  }

  lemma {:induction false} WindowLeft(v: seq<Word16>, T0: int, frac: int, lo: int, hi: int)
    requires InWindow(v, T0, frac) && Before(frac) - 9 <= lo < hi <= Before(frac) + 11
    ensures Window(v, T0, frac, lo, hi)
         == Window(v, T0, frac, lo + 1, hi) + Product(v[|v| - T0 + lo], Weight(lo, frac))
    decreases hi - lo
  {
    hide Weight, Product;
    if hi > lo + 1 { WindowLeft(v, T0, frac, lo, hi - 1); }
  }

  predicate Fits(x: int) { MIN_32 <= 2 * x <= MAX_32 }

  // No partial sum leaves 32 bits: those over the windows that grow from the middle, left first.
  ghost predicate Unsaturated(v: seq<Word16>, T0: int, frac: int)
    requires InWindow(v, T0, frac)
  {
    forall i :: 0 <= i <= L_INTER10 ==> StepFits(v, T0, frac, i)
  }

  ghost predicate StepFits(v: seq<Word16>, T0: int, frac: int, i: int)
    requires InWindow(v, T0, frac) && 0 <= i <= L_INTER10
  {
    var c := Before(frac);
    && Fits(Window(v, T0, frac, c - i + 1, c + i + 1))
    && (i < L_INTER10 ==> Fits(Window(v, T0, frac, c - i, c + i + 1)))
  }

  // The two coefficients of step i are those of the distances of its two samples.
  lemma Distances(frac: int, i: nat)
    requires -1 <= frac <= 1 && i < L_INTER10
    ensures var c := Before(frac);
      && 0 <= Phase(frac) < UP_SAMP
      && Abs(3 * (c - i) + frac) == Phase(frac) + UP_SAMP * i
      && Abs(3 * (c + i + 1) + frac) == UP_SAMP - Phase(frac) + UP_SAMP * i
      && Weight(c - i, frac) == Coefficient(Phase(frac) + UP_SAMP * i)
      && Weight(c + i + 1, frac) == Coefficient(UP_SAMP - Phase(frac) + UP_SAMP * i)
  {}

  lemma MacFits(acc: Word32, x: Word16, y: Word16, s: int)
    requires acc as int == 2 * s && Fits(s + Product(x, y)) && y > MIN_16
    ensures LMac(acc, x, y) as int == 2 * (s + Product(x, y))
  {
    ProductBound(x, y);
  }

  lemma Positive(k: nat)
    requires k <= 30
    ensures Coefficient(k) > MIN_16
  {}

  lemma {:induction false} TapsAreWindow(v: seq<Word16>, T0: int, frac: int, i: nat)
    requires InWindow(v, T0, frac) && Unsaturated(v, T0, frac) && i <= L_INTER10
    ensures 0 <= Phase(frac) < UP_SAMP
    ensures Taps(v, Centre(|v|, T0, frac), Phase(frac), i) as int
         == 2 * Window(v, T0, frac, Before(frac) - i + 1, Before(frac) + i + 1)
  {
    hide LMac, Product, Fits, Phase, Window, Weight, Coefficient;
    Distances(frac, 0);
    var c := Before(frac);
    if i == 0 {
      EmptyWindow(v, T0, frac, c + 1);
    } else {
      TapsAreWindow(v, T0, frac, i - 1);
      var k := i - 1;
      Distances(frac, k);
      Positive(Phase(frac) + UP_SAMP * k);
      Positive(UP_SAMP - Phase(frac) + UP_SAMP * k);
      var p := |v| - T0 + c;
      WindowLeft(v, T0, frac, c - k, c + k + 1);
      WindowRight(v, T0, frac, c - k, c + k + 2);
      assert StepFits(v, T0, frac, k) && StepFits(v, T0, frac, i);
      var acc := Taps(v, Centre(|v|, T0, frac), Phase(frac), k);
      MacFits(acc, v[p - k], Coefficient(Phase(frac) + UP_SAMP * k), Window(v, T0, frac, c - k + 1, c + k + 1));
      var half := LMac(acc, v[p - k], Coefficient(Phase(frac) + UP_SAMP * k));
      MacFits(half, v[p + k + 1], Coefficient(UP_SAMP - Phase(frac) + UP_SAMP * k),
              Window(v, T0, frac, c - k, c + k + 1));
    }
  }

  lemma EmptyWindow(v: seq<Word16>, T0: int, frac: int, lo: int)
    requires InWindow(v, T0, frac) && Before(frac) - 9 <= lo <= Before(frac) + 11
    ensures Window(v, T0, frac, lo, lo) == 0
  {}

  lemma WindowRight(v: seq<Word16>, T0: int, frac: int, lo: int, hi: int)
    requires InWindow(v, T0, frac) && Before(frac) - 9 <= lo < hi <= Before(frac) + 11
    ensures Window(v, T0, frac, lo, hi)
         == Window(v, T0, frac, lo, hi - 1) + Product(v[|v| - T0 + hi - 1], Weight(hi - 1, frac))
  {
    hide Weight, Product;
  }

  /** A predicted sample is the rounded interpolation of the past at the lag T0 + frac / 3: twenty
      samples, each weighted by its distance from that lag and by nothing else. */
  lemma SampleIsInterpolated(v: seq<Word16>, T0: int, frac: int)
    requires InWindow(v, T0, frac) && Unsaturated(v, T0, frac)
    ensures var (lo, hi) := if frac > 0 then (-10, 10) else (-9, 11);
      var sum := 2 * Window(v, T0, frac, lo, hi);
      MIN_32 <= sum <= MAX_32 && NextSample(v, T0, frac) == Round(sum)
  {
    hide Window, Taps, Round;
    TapsAreWindow(v, T0, frac, L_INTER10);
  }

  // ----- Samples that never saturate

  // The sum of the magnitudes of the weights.
  function Weights(frac: int, lo: int, hi: int): int
    requires -1 <= frac <= 1 && Before(frac) - 9 <= lo <= hi <= Before(frac) + 11
    decreases hi - lo
  {
    if hi == lo then 0 else Weights(frac, lo, hi - 1) + Abs(Weight(hi - 1, frac))
  }

  lemma {:induction false} WindowBounded(v: seq<Word16>, T0: int, frac: int, lo: int, hi: int, b: int)
    requires InWindow(v, T0, frac) && Before(frac) - 9 <= lo <= hi <= Before(frac) + 11 && b >= 0
    requires forall p :: 0 <= p < |v| ==> -b <= v[p] <= b
    ensures Abs(Window(v, T0, frac, lo, hi)) <= Product(b, Weights(frac, lo, hi))
    decreases hi - lo
  {
    hide Weight, Product;
    if hi > lo {
      WindowBounded(v, T0, frac, lo, hi - 1, b);
      TermBounded(v[|v| - T0 + hi - 1], Weight(hi - 1, frac), b, Weights(frac, lo, hi - 1));
    } else {
      Nothing(b);
    }
  }

  lemma Nothing(b: int)
    ensures Product(b, 0) == 0
  {}

  lemma TermBounded(x: int, w: int, b: int, weights: int)
    requires -b <= x <= b
    ensures Abs(Product(x, w)) <= Product(b, weights + Abs(w)) - Product(b, weights)
  {
    MulMono(Abs(x), b, Abs(w));
    assert b * (weights + Abs(w)) == b * weights + b * Abs(w);
    assert Abs(x * w) == Abs(x) * Abs(w);
  }

  lemma {:induction false} WeightsGrow(frac: int, lo: int, hi: int, hi': int)
    requires -1 <= frac <= 1 && Before(frac) - 9 <= lo <= hi <= hi' <= Before(frac) + 11
    ensures 0 <= Weights(frac, lo, hi) <= Weights(frac, lo, hi')
    decreases hi' - lo
  {
    hide Weight;
    if hi < hi' {
      WeightsGrow(frac, lo, hi, hi' - 1);
    } else if lo < hi {
      WeightsGrow(frac, lo, hi - 1, hi - 1);
    }
  }

  lemma {:induction false} WeightsFromLeft(frac: int, lo: int, lo': int, hi: int)
    requires -1 <= frac <= 1 && Before(frac) - 9 <= lo <= lo' <= hi <= Before(frac) + 11
    ensures Weights(frac, lo', hi) <= Weights(frac, lo, hi)
    decreases hi - lo'
  {
    hide Weight;
    if lo' < hi {
      WeightsFromLeft(frac, lo, lo', hi - 1);
    } else {
      WeightsGrow(frac, lo, lo', hi);
    }
  }

  // A bound of the magnitude of coefficient k.
  function Cap(k: int): int {
    if k == 0 then 29443 else if k == 1 then 25207 else if k == 2 then 14701 else if k <= 4 then 4402
    else if k == 5 then 5850 else if k == 6 then 2783 else if k == 7 then 1211 else if k <= 9 then 3130
    else if k <= 12 then 1666 else if k <= 16 then 1099 else if k <= 19 then 634 else 308
  }

  lemma CoefficientCapped(k: nat)
    requires k <= 30
    ensures Abs(INTER_3L[k]) <= Cap(k)
  {}

  // Five more weights.
  lemma FiveWeights(frac: int, lo: int, hi: int)
    requires -1 <= frac <= 1 && Before(frac) - 9 <= lo <= hi && hi + 5 <= Before(frac) + 11
    ensures Weights(frac, lo, hi + 5) <= Weights(frac, lo, hi) + Cap(Abs(3 * hi + frac)) + Cap(Abs(3 * (hi + 1) + frac))
         + Cap(Abs(3 * (hi + 2) + frac)) + Cap(Abs(3 * (hi + 3) + frac)) + Cap(Abs(3 * (hi + 4) + frac))
  {
    hide Cap;
    OneWeight(frac, lo, hi + 1);
    OneWeight(frac, lo, hi + 2);
    OneWeight(frac, lo, hi + 3);
    OneWeight(frac, lo, hi + 4);
    OneWeight(frac, lo, hi + 5);
    hide Weights;
  }

  lemma OneWeight(frac: int, lo: int, hi: int)
    requires -1 <= frac <= 1 && Before(frac) - 9 <= lo < hi <= Before(frac) + 11
    ensures Weights(frac, lo, hi) <= Weights(frac, lo, hi - 1) + Cap(Abs(3 * (hi - 1) + frac))
  {
    CoefficientCapped(Abs(3 * (hi - 1) + frac));
    hide INTER_3L, Cap;
  }

  lemma NoWeights(frac: int, lo: int)
    requires -1 <= frac <= 1 && Before(frac) - 9 <= lo <= Before(frac) + 11
    ensures Weights(frac, lo, lo) == 0
  {}

  lemma AllWeights(frac: int)
    requires -1 <= frac <= 1
    ensures Weights(frac, Before(frac) - 9, Before(frac) + 11) <= WEIGHTS
  {
    hide Weights;
    var lo := Before(frac) - 9;
    NoWeights(frac, lo);
    FiveWeights(frac, lo, lo);
    FiveWeights(frac, lo, lo + 5);
    FiveWeights(frac, lo, lo + 10);
    FiveWeights(frac, lo, lo + 15);
  }

  /** Samples up to LOUDEST in magnitude never saturate a prediction. */
  lemma QuietIsUnsaturated(v: seq<Word16>, T0: int, frac: int)
    requires InWindow(v, T0, frac) && forall p :: 0 <= p < |v| ==> -LOUDEST <= v[p] <= LOUDEST
    ensures Unsaturated(v, T0, frac)
  {
    hide Window, Weights;
    var c := Before(frac);
    AllWeights(frac);
    forall i | 0 <= i <= L_INTER10 ensures StepFits(v, T0, frac, i) {
      PartFits(v, T0, frac, c - i + 1, c + i + 1);
      if i < L_INTER10 { PartFits(v, T0, frac, c - i, c + i + 1); }
    }
  }

  lemma PartFits(v: seq<Word16>, T0: int, frac: int, lo: int, hi: int)
    requires InWindow(v, T0, frac) && forall p :: 0 <= p < |v| ==> -LOUDEST <= v[p] <= LOUDEST
    requires Before(frac) - 9 <= lo <= hi <= Before(frac) + 11
    ensures Fits(Window(v, T0, frac, lo, hi))
  {
    hide Window, Weights;
    AllWeights(frac);
    WindowBounded(v, T0, frac, lo, hi, LOUDEST);
    WeightsGrow(frac, lo, hi, Before(frac) + 11);
    WeightsFromLeft(frac, Before(frac) - 9, lo, Before(frac) + 11);
  }
}
