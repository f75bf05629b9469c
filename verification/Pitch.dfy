/** Closed-loop pitch search (PITCH_A.C) and the fractional long-term prediction that
    overwrites the excitation in place (PRED_LT3.C). */
module Pitch {
  import opened BasicOp
  import opened Ld8a
  import CorFunc

  // 1/3 resolution interpolation filter.
  const INTER_3L: seq<Word16> := [
    29443, 25207, 14701, 3143, -4402, -5850, -2783, 1211, 3130, 2259, 0, -1652, -1666, -464, 756, 1099,
    550, -245, -634, -451, 0, 308, 296, 78, -120, -165, -79, 34, 91, 70, 0]

  function Coefficient(k: nat): Word16
    requires k <= 30
  {
    INTER_3L[k]
  }

  // ----- The prediction as a function of the past alone

  // Whether a sample can be predicted from v: the whole window lies inside v.
  predicate InWindow(v: seq<Word16>, T0: int, frac: int) {
    -1 <= frac <= 1 && L_INTER10 < T0 && T0 + L_INTER10 <= |v|
  }

  function Phase(frac: int): int { if frac > 0 then UP_SAMP - frac else -frac }

  function Centre(n: int, T0: int, frac: int): int { if frac > 0 then n - T0 - 1 else n - T0 }

  // The first 2 * i taps of the interpolation around position x1 of v.
  function Taps(v: seq<Word16>, x1: int, phase: int, i: nat): Word32
    requires i <= L_INTER10 && L_INTER10 - 1 <= x1 && x1 + L_INTER10 < |v| && 0 <= phase < UP_SAMP
  {
    if i == 0 then 0
    else
      var s := LMac(Taps(v, x1, phase, i - 1), v[x1 - (i - 1)], Coefficient(phase + UP_SAMP * (i - 1)));
      LMac(s, v[x1 + i], Coefficient(UP_SAMP - phase + UP_SAMP * (i - 1)))
  }

  function NextSample(v: seq<Word16>, T0: int, frac: int): Word16
    requires InWindow(v, T0, frac)
  {
    Round(Taps(v, Centre(|v|, T0, frac), Phase(frac), L_INTER10))
  }

  // The past followed by n predicted samples, each computed from what precedes it.
  function Predicted(past: seq<Word16>, T0: int, frac: int, n: nat): (v: seq<Word16>)
    requires InWindow(past, T0, frac)
    ensures |v| == |past| + n && past <= v
  {
    if n == 0 then past
    else
      var v := Predicted(past, T0, frac, n - 1);
      v + [NextSample(v, T0, frac)]
  }

  method Interpolate(exc: array<Word16>, end: nat, x1: int, phase: Word16) returns (s: Word32)
    requires end <= exc.Length && L_INTER10 - 1 <= x1 && x1 + L_INTER10 < end && 0 <= phase < UP_SAMP
    ensures s == Taps(exc[..end], x1, phase, L_INTER10)
  {
    hide LMac, Coefficient;
    ghost var v := exc[..end];
    s := 0;
    var x2 := x1 + 1;
    var k := 0;
    for i := 0 to L_INTER10
      invariant k == UP_SAMP * i && s == Taps(v, x1, phase, i)
    {
      assert v[x1 - i] == exc[x1 - i] && v[x2 + i] == exc[x2 + i];
      s := LMac(s, exc[x1 - i], Coefficient(phase + k));
      s := LMac(s, exc[x2 + i], Coefficient(Sub(UP_SAMP, phase) + k));
      k := k + UP_SAMP;
    }
  }

  /** Pred_lt_3 on exc[at..].  For any lag above 10 the samples read are all past or already
      rewritten, so what was in exc[at..at + n] before does not matter. */
  method PredLt3(exc: array<Word16>, at: nat, T0: Word16, frac: Word16, n: nat)
    requires at + n <= exc.Length && -1 <= frac <= 1 && L_INTER10 < T0 && T0 + L_INTER10 <= at
    modifies exc
    ensures exc[..] == Predicted(old(exc[..at]), T0, frac, n) + old(exc[at + n..])
  {
    hide LMac, Round, Taps;
    ghost var past, rest := exc[..at], exc[at + n..];
    var x0: int := at - T0;
    var f := Negate(frac);
    if f < 0 {
      f := Add(f, UP_SAMP);
      x0 := x0 - 1;
    }
    for j := 0 to n
      invariant x0 == Centre(at + j, T0, frac) && f == Phase(frac)
      invariant exc[..at + j] == Predicted(past, T0, frac, j)
      invariant exc[at + n..] == rest
    {
      ghost var v := exc[..at + j];
      var x1 := x0;
      x0 := x0 + 1;
      var s := Interpolate(exc, at + j, x1, f);
      exc[at + j] := Round(s);
      assert exc[..at + j + 1] == v + [Round(s)];
      assert Round(s) == NextSample(v, T0, frac);
    }
    assert exc[..] == exc[..at + n] + exc[at + n..];
  }

  // ----- The search

  // The saturating scalar product of d with n samples of v from position p.
  function Dot(d: seq<Word16>, v: seq<Word16>, p: int, n: nat): Word32
    requires n <= |d| && 0 <= p && p + n <= |v|
  {
    if n == 0 then 0 else LMac(Dot(d, v, p, n - 1), d[n - 1], v[p + n - 1])
  }

  method DotProduct(d: array<Word16>, v: array<Word16>, p: int, n: nat) returns (sum: Word32)
    requires n <= d.Length && 0 <= p && p + n <= v.Length
    ensures sum == Dot(d[..], v[..], p, n)
  {
    hide LMac;
    sum := 0;
    for i := 0 to n
      invariant sum == Dot(d[..], v[..], p, i)
    {
      sum := LMac(sum, d[i], v[p + i]);
    }
  }

  // The correlation reached with a fraction of lag T0.
  function FractionScore(d: seq<Word16>, past: seq<Word16>, T0: int, frac: int): Word32
    requires |d| == L_SUBFR && InWindow(past, T0, frac)
  {
    Dot(d, Predicted(past, T0, frac, L_SUBFR), |past|, L_SUBFR)
  }

  // The fractions tried, in order.
  function Tried(first: bool, T0: int): (f: seq<int>)
    ensures f == [0] || f == [0, -1, 1]
  {
    if first && T0 > 84 then [0] else [0, -1, 1]
  }

  // frac has the largest score among those tried, and a larger one than all tried before it.
  ghost predicate BestFraction(d: seq<Word16>, past: seq<Word16>, first: bool, T0: int, frac: int)
    requires |d| == L_SUBFR && L_INTER10 < T0 && T0 + L_INTER10 <= |past|
  {
    exists k :: 0 <= k < |Tried(first, T0)| && frac == Tried(first, T0)[k] &&
      forall j :: 0 <= j < |Tried(first, T0)| ==>
        var score := FractionScore(d, past, T0, Tried(first, T0)[j]);
        if j < k then score < FractionScore(d, past, T0, frac) else score <= FractionScore(d, past, T0, frac)
  }

  // The correlation of an integer lag with the unfiltered past.
  function LagScore(d: seq<Word16>, exc: seq<Word16>, at: int, t: int): Word32
    requires |d| == L_SUBFR && 0 <= t <= at && at + L_SUBFR <= |exc|
  {
    Dot(d, exc, at - t, L_SUBFR)
  }

  // T0 is the first lag of the range with the largest correlation.
  ghost predicate BestLag(d: seq<Word16>, exc: seq<Word16>, at: int, lo: int, hi: int, T0: int)
    requires |d| == L_SUBFR && hi <= at && 0 <= lo && at + L_SUBFR <= |exc|
  {
    && lo <= T0 <= hi
    && (forall t :: lo <= t < T0 ==> LagScore(d, exc, at, t) < LagScore(d, exc, at, T0))
    && (forall t :: T0 <= t <= hi ==> LagScore(d, exc, at, t) <= LagScore(d, exc, at, T0))
  }

  method BestIntegerLag(d: array<Word16>, exc: array<Word16>, at: nat, lo: Word16, hi: Word16) returns (T0: Word16)
    requires d.Length == L_SUBFR && 0 <= lo <= hi <= at && hi < MAX_16 && at + L_SUBFR <= exc.Length
    ensures BestLag(d[..], exc[..], at, lo, hi, T0)
  {
    hide Dot, LMac;
    var max: Word32 := MIN_32;
    T0 := lo;
    var t: int := lo;
    ghost var ds, es := d[..], exc[..];
    while t <= hi
      invariant lo <= t <= hi + 1 && lo <= T0 <= hi
      invariant max == MIN_32 ==> T0 == lo
      invariant max > MIN_32 ==> T0 < t && max == LagScore(ds, es, at, T0)
      invariant forall u :: lo <= u < t ==> LagScore(ds, es, at, u) <= max
      invariant forall u :: lo <= u < T0 ==> LagScore(ds, es, at, u) < max
    {
      var corr := DotProduct(d, exc, at - t, L_SUBFR);
      assert corr == LagScore(ds, es, at, t);
      if LSub(corr, max) > 0 {
        max := corr;
        T0 := t;
      }
      t := t + 1;
    }
  }

  /** Pitch_fr3_fast: on return exc[at..] is the prediction, from the untouched past, for the
      lag and fraction returned. */
  method PitchFr3(exc: array<Word16>, at: nat, xn: array<Word16>, h: array<Word16>, lo: Word16, hi: Word16, first: bool)
    returns (T0: Word16, frac: Word16)
    requires xn.Length == h.Length == L_SUBFR && exc != xn && exc != h
    requires L_INTER10 < lo <= hi < MAX_16 && hi + L_INTER10 <= at && at + L_SUBFR <= exc.Length
    modifies exc
    ensures var d, past := CorFunc.Correlations(old(xn[..]), old(h[..])), old(exc[..at]);
      && BestLag(d, old(exc[..]), at, lo, hi, T0)
      && BestFraction(d, past, first, T0, frac)
      && exc[..] == Predicted(past, T0, frac, L_SUBFR) + old(exc[at + L_SUBFR..])
  {
    var d := new Word16[L_SUBFR];
    CorFunc.CorHX(h, xn, d);
    T0 := BestIntegerLag(d, exc, at, lo, hi);
    frac := BestThird(d, exc, at, T0, first);
  }

  // One fraction: predict in place and correlate.
  method TryFraction(d: array<Word16>, exc: array<Word16>, at: nat, T0: Word16, frac: Word16) returns (corr: Word32)
    requires d.Length == L_SUBFR && d != exc && -1 <= frac <= 1
    requires L_INTER10 < T0 && T0 + L_INTER10 <= at && at + L_SUBFR <= exc.Length
    modifies exc
    ensures exc[..] == Predicted(old(exc[..at]), T0, frac, L_SUBFR) + old(exc[at + L_SUBFR..])
    ensures corr == FractionScore(d[..], old(exc[..at]), T0, frac)
    ensures exc[..at] == old(exc[..at]) && exc[at + L_SUBFR..] == old(exc[at + L_SUBFR..])
  {
    hide Dot, Predicted;
    PredLt3(exc, at, T0, frac, L_SUBFR);
    PrefixDot(d[..], Predicted(old(exc[..at]), T0, frac, L_SUBFR), old(exc[at + L_SUBFR..]), at, L_SUBFR);
    corr := DotProduct(d, exc, at, L_SUBFR);
  }

  // The two comparisons keep the earliest of the best of the three fractions.
  lemma BestOfThree(d: seq<Word16>, past: seq<Word16>, first: bool, T0: int, frac: int)
    requires |d| == L_SUBFR && L_INTER10 < T0 && T0 + L_INTER10 <= |past| && !(first && T0 > 84)
    requires var s0, m, p := FractionScore(d, past, T0, 0), FractionScore(d, past, T0, -1),
        FractionScore(d, past, T0, 1);
      var best := if m > s0 then m else s0;
      frac == if p > best then 1 else if m > s0 then -1 else 0
    ensures BestFraction(d, past, first, T0, frac)
  {
    hide FractionScore;
    var fs := Tried(first, T0);
    if frac == 0 { assert fs[0] == frac; }
    else if frac == -1 { assert fs[1] == frac; }
    else { assert fs[2] == frac; }
  }

  method BestThird(d: array<Word16>, exc: array<Word16>, at: nat, T0: Word16, first: bool) returns (frac: Word16)
    requires d.Length == L_SUBFR && d != exc
    requires L_INTER10 < T0 && T0 + L_INTER10 <= at && at + L_SUBFR <= exc.Length
    modifies exc
    ensures BestFraction(old(d[..]), old(exc[..at]), first, T0, frac)
    ensures exc[..] == Predicted(old(exc[..at]), T0, frac, L_SUBFR) + old(exc[at + L_SUBFR..])
  {
    hide FractionScore, Predicted;
    ghost var ds, past, rest := d[..], exc[..at], exc[at + L_SUBFR..];
    var max := TryFraction(d, exc, at, T0, 0);
    frac := 0;
    if first && Sub(T0, 84) > 0 {
      assert Tried(first, T0)[0] == frac;
      return;
    }
    var tmp := SaveSubframe(exc, at);
    var corr := TryFraction(d, exc, at, T0, -1);
    if LSub(corr, max) > 0 {
      max := corr;
      frac := -1;
      tmp := SaveSubframe(exc, at);
    }
    assert past + tmp[..] == Predicted(past, T0, frac, L_SUBFR);
    corr := TryFraction(d, exc, at, T0, 1);
    if LSub(corr, max) > 0 {
      max := corr;
      frac := 1;
    } else {
      RestoreSubframe(tmp, exc, at);
    }
    BestOfThree(ds, past, first, T0, frac);
  }

  // Only the samples inside v matter for a scalar product.
  lemma {:induction false} PrefixDot(d: seq<Word16>, v: seq<Word16>, rest: seq<Word16>, p: int, n: nat)
    requires n <= |d| && 0 <= p && p + n <= |v|
    ensures Dot(d, v + rest, p, n) == Dot(d, v, p, n)
  {
    hide LMac;
    if n > 0 { PrefixDot(d, v, rest, p, n - 1); }
  }

  method SaveSubframe(exc: array<Word16>, at: nat) returns (tmp: array<Word16>)
    requires at + L_SUBFR <= exc.Length
    ensures fresh(tmp) && tmp[..] == exc[at..at + L_SUBFR]
  {
    tmp := new Word16[L_SUBFR];
    for i := 0 to L_SUBFR
      invariant forall k :: 0 <= k < i ==> tmp[k] == exc[at + k]
    {
      tmp[i] := exc[at + i];
    }
  }

  method RestoreSubframe(tmp: array<Word16>, exc: array<Word16>, at: nat)
    requires at + L_SUBFR <= exc.Length && tmp.Length == L_SUBFR && tmp != exc
    modifies exc
    ensures exc[..] == old(exc[..at]) + tmp[..] + old(exc[at + L_SUBFR..])
  {
    for i := 0 to L_SUBFR
      invariant tmp[..] == old(tmp[..])
      invariant forall k :: 0 <= k < at || at + L_SUBFR <= k < exc.Length ==> exc[k] == old(exc[k])
      invariant forall k :: 0 <= k < i ==> exc[at + k] == tmp[k]
    {
      exc[at + i] := tmp[i];
    }
    assert exc[at..at + L_SUBFR] == tmp[..];
    assert exc[..] == exc[..at] + exc[at..at + L_SUBFR] + exc[at + L_SUBFR..];
  }
}
