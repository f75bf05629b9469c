/** Synthesis and residual (FILTER.C) as filters: their taps written out, and the one as the inverse of
    the other. */
module FilterLaw {
  import opened BasicOp
  import opened Ld8a
  import opened Filter

  lemma {:induction false} TwoTaps(a: seq<Word16>, v: seq<Word16>, p: int, j: nat)
    requires |a| == M + 1 && j + 2 <= M <= p <= |v|
    ensures Head(a, v, p, j + 2)
         == Head(a, v, p, j) + (a[j + 1] as int) * (v[p - j - 1] as int) + (a[j + 2] as int) * (v[p - j - 2] as int)
  {
    assert Head(a, v, p, j + 2) == Head(a, v, p, j + 1) + Product(a[j + 2], v[p - j - 2]);
  }

  /** Both filters weight the ten samples before position p: the newest with a[1], the oldest with a[10]. */
  lemma TapsWrittenOut(a: seq<Word16>, v: seq<Word16>, p: int)
    requires |a| == M + 1 && M <= p <= |v|
    ensures Head(a, v, p, M) as int
         == (a[1] as int) * (v[p - 1] as int) + (a[2] as int) * (v[p - 2] as int)
          + (a[3] as int) * (v[p - 3] as int) + (a[4] as int) * (v[p - 4] as int)
          + (a[5] as int) * (v[p - 5] as int) + (a[6] as int) * (v[p - 6] as int)
          + (a[7] as int) * (v[p - 7] as int) + (a[8] as int) * (v[p - 8] as int)
          + (a[9] as int) * (v[p - 9] as int) + (a[10] as int) * (v[p - 10] as int)
  {
    TwoTaps(a, v, p, 0);
    TwoTaps(a, v, p, 2);
    TwoTaps(a, v, p, 4);
    TwoTaps(a, v, p, 6);
    TwoTaps(a, v, p, 8);
    assert Head(a, v, p, 0) == 0;
    hide Head;
  }

  // The exact sum that a sample of the synthesis is rounded from, in Q12.
  function Exact(a: seq<Word16>, v: seq<Word16>, x: Word16): int
    requires |a| == M + 1 && M <= |v|
  {
    4096 * (x as int) - Head(a, v, |v|, M)
  }

  // It can be doubled, shifted and rounded without overflow.
  predicate Fits(s: int) { MIN_32 <= 16 * s && 16 * s + 0x8000 <= MAX_32 }

  /** Without overflow an output of the synthesis is the exact sum rounded to the nearest integer. */
  lemma OutputIsRounded(a: seq<Word16>, v: seq<Word16>, x: Word16)
    requires |a| == M + 1 && M <= |v| && a[0] == 4096 && Fits(Exact(a, v, x))
    ensures Output(Direct(a, v, x, M)) as int == (Exact(a, v, x) + 2048) / 4096
  {
    DirectIsExact(a, v, x, M);
    hide Direct, Head;
    var s := Exact(a, v, x);
    Wrap32Unique(2 * s, 2 * s, 0);
    assert Direct(a, v, x, M) as int == 2 * s;
    RoundedOutput(s);
  }

  lemma RoundedOutput(s: int)
    requires Fits(s)
    ensures Output(2 * s) as int == (s + 2048) / 4096
  {
    assert TwoTo(3) == 8;
    DivBounds(s + 2048, 4096);
    DivUnique(16 * s + 0x8000, 0x1_0000, (s + 2048) / 4096);
  }

  /** The residual of a synthesised sample is the input of the synthesis again, or one more exactly when
      the output was rounded up from a tie. */
  lemma ResidualInvertsSynthesis(a: seq<Word16>, v: seq<Word16>, x: Word16)
    requires |a| == M + 1 && M <= |v| && a[0] == 4096 && Fits(Exact(a, v, x)) && x < MAX_16
    ensures var w := v + [Output(Direct(a, v, x, M))];
      var tie := (Exact(a, v, x) + 2048) % 4096 == 0;
      ExtractH(Wrap32(16 * OneSum(a, w, |v|) + 0x8000)) as int == x as int + (if tie then 1 else 0)
  {
    OutputIsRounded(a, v, x);
    hide Direct, Head, Output;
    var y := Output(Direct(a, v, x, M));
    var w := v + [y];
    HeadPrefix(a, v, w, |v|, M);
    var s := Exact(a, v, x);
    assert OneSum(a, w, |v|) == 4096 * (y as int) + 4096 * (x as int) - s;
    Recovered(s, y, x);
  }

  lemma Recovered(s: int, y: int, x: int)
    requires y == (s + 2048) / 4096 && MIN_16 <= x < MAX_16
    ensures var t := 16 * (4096 * y + 4096 * x - s) + 0x8000;
      ExtractH(Wrap32(t)) as int == x + (if (s + 2048) % 4096 == 0 then 1 else 0)
  {
    DivBounds(s + 2048, 4096);
    var r := s + 2048 - 4096 * y;
    var t := 16 * (4096 * y + 4096 * x - s) + 0x8000;
    assert t == 0x1_0000 * x + 16 * (4096 - r);
    Wrap32Unique(t, t, 0);
    if r == 0 { DivUnique(t, 0x1_0000, x + 1); } else { DivUnique(t, 0x1_0000, x); }
    DivUnique(s + 2048, 4096, y);
  }

  lemma {:induction false} HeadPrefix(a: seq<Word16>, v: seq<Word16>, w: seq<Word16>, p: int, j: nat)
    requires |a| == M + 1 && j <= M <= p <= |v| && v <= w
    ensures Head(a, w, p, j) == Head(a, v, p, j)
  {
    if j > 0 { HeadPrefix(a, v, w, p, j - 1); }
  }
}
