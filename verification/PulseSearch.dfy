/** The depth-first pulse search of D4i40_17_fast (ACELP_CA.C).  Candidates are compared
    by cross-multiplied ratios square(correlation) / energy; the result is proved to
    dominate every candidate that was tried. */
module PulseSearch {
  import opened BasicOp
  import opened Ld8a
  import opened PulseLayout

  datatype Score = Score(sq: Word16, alp: Word16)

  // sq/alp is at least sq'/alp', for positive energies.
  ghost predicate Dominates(x: Score, y: Score) {
    Product(x.sq, y.alp) >= Product(y.sq, x.alp)
  }

  ghost predicate AllPositive(tried: seq<Score>) {
    forall k :: 0 <= k < |tried| ==> tried[k].alp > 0
  }

  ghost predicate DominatesAll(best: Score, tried: seq<Score>) {
    best.alp > 0 && best.sq >= 0 && forall k :: 0 <= k < |tried| ==> Dominates(best, tried[k])
  }

  // The source's test  L_msu(L_mult(alp, sq2), sq, alp_16) > 0.
  function Better(best: Score, cand: Score): bool {
    LMsu(LMult(best.alp, cand.sq), best.sq, cand.alp) > 0
  }

  // The state of a search that has tried some candidates.
  ghost predicate Holds(best: Score, tried: seq<Score>) {
    && best.sq >= -1
    && (forall k :: 0 <= k < |tried| ==> tried[k].sq >= 0)
    && (AllPositive(tried) ==>
          if tried == [] then best == Score(-1, 1) else DominatesAll(best, tried))
  }

  // ----- The ratio test is exact and keeps the best candidate

  lemma BetterIsExact(best: Score, cand: Score)
    requires best.sq >= -1 && cand.sq >= 0
    ensures Better(best, cand) <==> Product(cand.sq, best.alp) > Product(best.sq, cand.alp)
  {
    ProductBound(best.alp, cand.sq);
    ProductBound(best.sq, cand.alp);
    assert best.alp * cand.sq == Product(cand.sq, best.alp);
    assert best.sq * cand.alp == Product(best.sq, cand.alp);
  }

  /** The first candidate of a phase is accepted exactly when its square plus its energy is
      positive; a zero correlation with zero energy is refused, so positivity is needed. */
  lemma FirstAccepted(cand: Score)
    requires cand.sq >= 0
    ensures Better(Score(-1, 1), cand) <==> cand.sq + cand.alp > 0
  {}

  lemma DominatesTransitive(x: Score, y: Score, z: Score)
    requires x.alp > 0 && y.alp > 0 && z.alp > 0 && y.sq >= 0 && x.sq >= 0 && z.sq >= 0
    requires Dominates(x, y) && Dominates(y, z)
    ensures Dominates(x, z)
  {
    // x.sq * y.alp * z.alp >= y.sq * x.alp * z.alp >= z.sq * y.alp * x.alp
    CrossMultiply(x.sq, x.alp, y.sq, y.alp, z.sq, z.alp);
  }

  lemma CrossMultiply(a: int, b: int, c: int, d: int, e: int, f: int)
    requires b > 0 && d > 0 && f > 0
    requires a * d >= c * b && c * f >= e * d
    ensures a * f >= e * b
  {
    MulMono(c * b, a * d, f);
    MulMono(e * d, c * f, b);
    assert (c * b) * f == (c * f) * b;
    assert (a * d) * f == (a * f) * d;
    assert (e * d) * b == (e * b) * d;
    if a * f < e * b {
      StrictMul(a * f, e * b, d);
      assert false;
    }
  }

  lemma StrictMul(x: int, y: int, d: int)
    requires x < y && d > 0
    ensures x * d < y * d
  {}

  // Trying one more candidate keeps the search state.
  lemma TryOne(best: Score, tried: seq<Score>, cand: Score)
    requires Holds(best, tried) && cand.sq >= 0
    ensures Holds(if Better(best, cand) then cand else best, tried + [cand])
    ensures AllPositive(tried + [cand]) && tried == [] ==> Better(best, cand)
  {
    var all := tried + [cand];
    BetterIsExact(best, cand);
    hide Better;
    if AllPositive(all) {
      assert all[|tried|] == cand;
      assert forall k :: 0 <= k < |tried| ==> all[k] == tried[k];
      assert AllPositive(tried);
      if tried == [] {
        assert Product(cand.sq, 1) >= 0 > Product(-1, cand.alp);
      } else if Better(best, cand) {
        forall k | 0 <= k < |all| ensures Dominates(cand, all[k]) {
          if k < |tried| { DominatesTransitive(cand, best, tried[k]); }
        }
      }
    }
  }

  lemma SquareNonNegative(x: Word16)
    ensures Mult(x, x) >= 0
  {
    assert x * x >= 0;
  }

  // ----- Words of the correlation matrix, addressed as the source's pointers do

  function Diag(a: int, i: int): int
    requires 0 <= a <= 4 && 0 <= i < L_SUBFR
  {
    NB_POS * a + i / STEP
  }

  // Position i on track a, position j on track b, in either order of tracks.
  function Cross(a: int, i: int, b: int, j: int): int
    requires 0 <= a <= 4 && 0 <= b <= 4 && a != b && (a <= 2 || b <= 2)
    requires 0 <= i < L_SUBFR && 0 <= j < L_SUBFR
  {
    if a < b then Base(a, b) + NB_POS * (i / STEP) + j / STEP
    else Base(b, a) + NB_POS * (j / STEP) + i / STEP
  }

  lemma InMatrix(a: int, i: int, b: int, j: int)
    requires 0 <= a <= 4 && 0 <= b <= 4 && a != b && (a <= 2 || b <= 2)
    requires 0 <= i < L_SUBFR && 0 <= j < L_SUBFR
    ensures 0 <= Cross(a, i, b, j) < DIM_RR && 0 <= Diag(a, i) < DIM_RR
  {}

  predicate Shape(dn: seq<Word16>, rr: seq<Word16>) { |dn| == L_SUBFR && |rr| == DIM_RR }

  function Plus(acc: Word32, x: Word16, shift: int): Word32 {
    var a: int := acc;
    Wrap32(a + Product(x, shift))
  }

  // ----- Phase A: two pulses, i0 on track a and i1 on track b

  function EnergyA(rr: seq<Word16>, a: int, i0: int, b: int, i1: int): Word16
    requires |rr| == DIM_RR && 0 <= a <= 4 && 0 <= b <= 4 && a != b && (a <= 2 || b <= 2)
    requires 0 <= i0 < L_SUBFR && 0 <= i1 < L_SUBFR
  {
    InMatrix(a, i0, b, i1);
    InMatrix(b, i1, a, i0);
    Round(Plus(Plus(LMult(rr[Diag(a, i0)], 8192), rr[Cross(a, i0, b, i1)], 0x8000), rr[Diag(b, i1)], 0x4000))
  }

  function ScoreA(dn: seq<Word16>, rr: seq<Word16>, a: int, i0: int, b: int, i1: int): Score
    requires Shape(dn, rr) && 0 <= a <= 4 && 0 <= b <= 4 && a != b && (a <= 2 || b <= 2)
    requires 0 <= i0 < L_SUBFR && 0 <= i1 < L_SUBFR
  {
    var ps := Add(dn[i0], dn[i1]);
    Score(Mult(ps, ps), EnergyA(rr, a, i0, b, i1))
  }

  // The first n candidates with first pulse i0.
  ghost function CandidatesA(dn: seq<Word16>, rr: seq<Word16>, a: int, i0: int, b: int, n: int): (s: seq<Score>)
    requires Shape(dn, rr) && 0 <= a <= 4 && 0 <= b <= 4 && a != b && (a <= 2 || b <= 2)
    requires 0 <= i0 < L_SUBFR && 0 <= n <= NB_POS
    ensures |s| == n && forall k :: 0 <= k < n ==> s[k] == ScoreA(dn, rr, a, i0, b, b + STEP * k)
  {
    seq(n, k requires 0 <= k < n => ScoreA(dn, rr, a, i0, b, b + STEP * k))
  }

  // ----- Phase B: with i0 and i1 fixed, i2 on track c and i3 on track d

  function TmpVect(rr: seq<Word16>, a: int, i0: int, b: int, i1: int, d: int, i3: int): Word16
    requires |rr| == DIM_RR && Tracks(a, b, d) && 0 <= i0 < L_SUBFR && 0 <= i1 < L_SUBFR && 0 <= i3 < L_SUBFR
  {
    InMatrix(d, i3, a, i0);
    InMatrix(d, i3, b, i1);
    Round(Plus(Plus(Product(rr[Cross(d, i3, a, i0)], 0x4000), rr[Cross(d, i3, b, i1)], 0x4000), rr[Diag(d, i3)],
        0x2000))
  }

  // Three different tracks, at most one of them 3 or 4, with d among 0..2.
  predicate Tracks(a: int, b: int, d: int) {
    0 <= a <= 4 && 0 <= b <= 4 && 0 <= d <= 2 && a != b && a != d && b != d && (a <= 2 || b <= 2)
  }

  function EnergyB2(rr: seq<Word16>, alp: Word16, a: int, i0: int, b: int, i1: int, c: int, i2: int): Word32
    requires |rr| == DIM_RR && Tracks(a, b, c) && 0 <= i0 < L_SUBFR && 0 <= i1 < L_SUBFR && 0 <= i2 < L_SUBFR
  {
    InMatrix(c, i2, a, i0);
    InMatrix(c, i2, b, i1);
    Plus(Plus(Plus(LMult(alp, 8192), rr[Cross(c, i2, a, i0)], 0x2000), rr[Cross(c, i2, b, i1)], 0x2000),
        rr[Diag(c, i2)], 0x1000)
  }

  // The outcome of phase A: positions on tracks a and b, their correlation and energy.
  datatype Pick = Pick(a: int, i0: int, b: int, i1: int, ps: Word16, alp: Word16) {
    predicate Valid(c: int, d: int) {
      && Tracks(a, b, c) && Tracks(a, b, d) && c < d
      && 0 <= i0 < L_SUBFR && 0 <= i1 < L_SUBFR
    }
    predicate OnTrack() { i0 % STEP == a && i1 % STEP == b }
  }

  function EnergyB(rr: seq<Word16>, k: Pick, c: int, i2: int, d: int, i3: int): Word16
    requires |rr| == DIM_RR && k.Valid(c, d) && 0 <= i2 < L_SUBFR && 0 <= i3 < L_SUBFR
  {
    InMatrix(c, i2, d, i3);
    Round(Plus(Plus(EnergyB2(rr, k.alp, k.a, k.i0, k.b, k.i1, c, i2), rr[Cross(c, i2, d, i3)], 0x2000),
               TmpVect(rr, k.a, k.i0, k.b, k.i1, d, i3), 0x8000))
  }

  function ScoreB(dn: seq<Word16>, rr: seq<Word16>, k: Pick, c: int, i2: int, d: int, i3: int): Score
    requires Shape(dn, rr) && k.Valid(c, d) && 0 <= i2 < L_SUBFR && 0 <= i3 < L_SUBFR
  {
    var ps := Add(Add(k.ps, dn[i2]), dn[i3]);
    Score(Mult(ps, ps), EnergyB(rr, k, c, i2, d, i3))
  }

  // The first n of the 64 candidates, i3 varying fastest.
  ghost function CandidatesB(dn: seq<Word16>, rr: seq<Word16>, k: Pick, c: int, d: int, n: int): (s: seq<Score>)
    requires Shape(dn, rr) && k.Valid(c, d) && 0 <= n <= MSIZE
    ensures |s| == n
  {
    seq(n, j requires 0 <= j < n => ScoreB(dn, rr, k, c, c + STEP * (j / NB_POS), d, d + STEP * (j % NB_POS)))
  }

  // ----- The search loops

  // The largest dn on a track, leaving out one position.
  method PickMax(dn: array<Word16>, track: int, prev: int) returns (i0: int)
    requires dn.Length == L_SUBFR && 0 <= track <= 4
    requires forall j :: 0 <= j < L_SUBFR ==> dn[j] >= 0
    ensures 0 <= i0 < L_SUBFR && i0 % STEP == track && i0 != prev
    ensures forall j :: 0 <= j < L_SUBFR && j % STEP == track && j != prev ==> dn[j] <= dn[i0]
  {
    var max: Word16 := -1;
    i0 := 0;
    var j := track;
    while j < L_SUBFR
      invariant track <= j <= L_SUBFR + track && j % STEP == track
      invariant max == -1 ==> j == track || (j == track + STEP && prev == track)
      invariant max >= 0 ==> 0 <= i0 < j && i0 < L_SUBFR && i0 % STEP == track && i0 != prev && max == dn[i0]
      invariant max >= -1
      invariant forall i :: 0 <= i < j && i < L_SUBFR && i % STEP == track && i != prev ==> dn[i] <= max
    {
      if Sub(dn[j], max) > 0 && j != prev {
        max := dn[j];
        i0 := j;
      }
      j := j + STEP;
    }
  }

  lemma FifthByMult(i: Word16)
    requires 0 <= i < L_SUBFR
    ensures Mult(i, 6554) == i / STEP
  {}

  // Both first pulses of phase A: the two largest dn of track a.
  ghost predicate TopTwo(dn: seq<Word16>, a: int, x: int, y: int) {
    && |dn| == L_SUBFR && 0 <= x < L_SUBFR && 0 <= y < L_SUBFR
    && x % STEP == a && y % STEP == a && x != y
    && forall j :: 0 <= j < L_SUBFR && j % STEP == a && j != x ==> dn[j] <= dn[y] <= dn[x]
  }

  ghost predicate PhaseADone(dn: seq<Word16>, rr: seq<Word16>, x: int, y: int, k: Pick, tried: seq<Score>)
    requires Shape(dn, rr)
  {
    && 0 <= k.a <= 4 && 0 <= k.b <= 4 && k.a != k.b && (k.a <= 2 || k.b <= 2)
    && TopTwo(dn, k.a, x, y)
    && tried == CandidatesA(dn, rr, k.a, x, k.b, NB_POS) + CandidatesA(dn, rr, k.a, y, k.b, NB_POS)
    && (AllPositive(tried) ==>
          && 0 <= k.i0 < L_SUBFR && 0 <= k.i1 < L_SUBFR && k.OnTrack() && (k.i0 == x || k.i0 == y)
          && k.ps == Add(dn[k.i0], dn[k.i1]) && k.alp == ScoreA(dn, rr, k.a, k.i0, k.b, k.i1).alp
          && DominatesAll(ScoreA(dn, rr, k.a, k.i0, k.b, k.i1), tried))
  }

  /** Phase A.  Pointer p0 walks along a row or down a column of the block of tracks a and b. */
  method PhaseA(dn: array<Word16>, rr: array<Word16>, a: int, b: int, ix0: int, iy0: int, ps0: Word16)
    returns (k: Pick, ghost x: int, ghost y: int, ghost tried: seq<Score>)
    requires Shape(dn[..], rr[..]) && forall j :: 0 <= j < L_SUBFR ==> dn[j] >= 0
    requires 0 <= a <= 4 && 0 <= b <= 4 && a != b && (a <= 2 || b <= 2)
    requires 0 <= ix0 < L_SUBFR && 0 <= iy0 < L_SUBFR
    ensures k.a == a && k.b == b && 0 <= k.i0 < L_SUBFR && 0 <= k.i1 < L_SUBFR
    ensures PhaseADone(dn[..], rr[..], x, y, k, tried)
  {
    hide ScoreA, Better, AllPositive, DominatesAll;
    ghost var d, r := dn[..], rr[..];
    var sq: Word16, alp: Word16, ps, ix, iy := -1, 1, ps0, ix0, iy0;
    tried := [];
    var best := Score(sq, alp);
    var i0 := PickMax(dn, a, -1);
    x := i0;
    best, ps, ix, iy, tried := TryFirstPulse(dn, rr, a, i0, b, best, ps, ix, iy, tried);
    assert tried == CandidatesA(d, r, a, x, b, NB_POS);
    i0 := PickMax(dn, a, i0);
    y := i0;
    ghost var first := tried;
    best, ps, ix, iy, tried := TryFirstPulse(dn, rr, a, i0, b, best, ps, ix, iy, tried);
    SplitPositive(first, CandidatesA(d, r, a, y, b, NB_POS));
    k := Pick(a, ix, b, iy, ps, best.alp);
  }

  // The chosen pulses so far produced the best score.
  ghost predicate Chosen(dn: seq<Word16>, rr: seq<Word16>, a: int, b: int, best: Score, ps: Word16, ix: int, iy: int)
    requires Shape(dn, rr) && 0 <= a <= 4 && 0 <= b <= 4 && a != b && (a <= 2 || b <= 2)
  {
    && 0 <= ix < L_SUBFR && 0 <= iy < L_SUBFR && ix % STEP == a && iy % STEP == b
    && ps == Add(dn[ix], dn[iy]) && best == ScoreA(dn, rr, a, ix, b, iy)
  }

  // The eight candidates with first pulse i0.
  method TryFirstPulse(dn: array<Word16>, rr: array<Word16>, a: int, i0: Word16, b: int, best0: Score, psIn: Word16,
                       ix0: int, iy0: int, ghost before: seq<Score>)
    returns (best: Score, ps: Word16, ix: int, iy: int, ghost tried: seq<Score>)
    requires Shape(dn[..], rr[..]) && 0 <= a <= 4 && 0 <= b <= 4 && a != b && (a <= 2 || b <= 2)
    requires 0 <= i0 < L_SUBFR && i0 % STEP == a && 0 <= ix0 < L_SUBFR && 0 <= iy0 < L_SUBFR
    requires Holds(best0, before)
    requires AllPositive(before) && before != [] ==> Chosen(dn[..], rr[..], a, b, best0, psIn, ix0, iy0)
    ensures tried == before + CandidatesA(dn[..], rr[..], a, i0, b, NB_POS)
    ensures Holds(best, tried) && 0 <= ix < L_SUBFR && 0 <= iy < L_SUBFR
    ensures ix == ix0 || ix == i0
    ensures AllPositive(tried) ==> Chosen(dn[..], rr[..], a, b, best, ps, ix, iy)
    ensures AllPositive(tried) && before == [] ==> ix == i0
  {
    hide ScoreA, Better, AllPositive, Holds;
    ghost var d, r := dn[..], rr[..];
    best, ps, ix, iy, tried := best0, psIn, ix0, iy0, before;
    FifthByMult(i0);
    var j: int := Mult(i0, 6554);
    var alp1 := LMult(rr[NB_POS * a + j], 8192);
    var p0 := Cross(a, i0, b, b);
    var p1 := NB_POS * b;
    var i1: int := b;
    for n := 0 to NB_POS
      invariant i1 == b + STEP * n && p1 == NB_POS * b + n
      invariant p0 == Cross(a, i0, b, b) + (if a < b then n else NB_POS * n)
      invariant tried == before + CandidatesA(d, r, a, i0, b, n)
      invariant Holds(best, tried) && 0 <= ix < L_SUBFR && 0 <= iy < L_SUBFR && (ix == ix0 || ix == i0)
      invariant AllPositive(tried) && tried != [] ==> Chosen(d, r, a, b, best, ps, ix, iy)
      invariant AllPositive(tried) && before == [] && n > 0 ==> ix == i0
    {
      AfterSteps(b, n);
      assert p0 == Cross(a, i0, b, i1) && p1 == Diag(b, i1);
      var cand, ps2 := ReadA(dn, rr, a, i0, b, i1, alp1, p0, p1);
      TryOne(best, tried, cand);
      ghost var all := tried + [cand];
      assert all == before + CandidatesA(d, r, a, i0, b, n + 1);
      SplitPositive(tried, [cand]);
      if Better(best, cand) {
        best, ps, ix, iy := cand, ps2, i0, i1;
      }
      tried := all;
      i1, p1 := i1 + STEP, p1 + 1;
      p0 := p0 + (if a < b then 1 else NB_POS);
    }
  }

  lemma SplitPositive(s: seq<Score>, t: seq<Score>)
    ensures AllPositive(s + t) ==> AllPositive(s)
  {
    assert forall k :: 0 <= k < |s| ==> (s + t)[k] == s[k];
  }

  lemma AfterSteps(track: int, n: int)
    requires 0 <= track <= 4
    ensures (track + STEP * n) / STEP == n && (track + STEP * n) % STEP == track
  {}

  // The candidate the inner loop of phase A evaluates at pointers p0 and p1.
  method ReadA(dn: array<Word16>, rr: array<Word16>, a: int, i0: int, b: int, i1: int, alp1: Word32, p0: int, p1: int)
    returns (cand: Score, ps2: Word16)
    requires Shape(dn[..], rr[..]) && 0 <= a <= 4 && 0 <= b <= 4 && a != b && (a <= 2 || b <= 2)
    requires 0 <= i0 < L_SUBFR && 0 <= i1 < L_SUBFR
    requires 0 <= Diag(a, i0) < DIM_RR && alp1 == LMult(rr[Diag(a, i0)], 8192)
    requires p0 == Cross(a, i0, b, i1) && p1 == Diag(b, i1)
    ensures cand == ScoreA(dn[..], rr[..], a, i0, b, i1) && cand.sq >= 0
    ensures ps2 == Add(dn[i0], dn[i1])
  {
    InMatrix(a, i0, b, i1);
    InMatrix(b, i1, a, i0);
    ps2 := Add(dn[i0], dn[i1]);
    var alp2 := Plus(alp1, rr[p0], 0x8000);
    alp2 := Plus(alp2, rr[p1], 0x4000);
    cand := Score(Mult(ps2, ps2), Round(alp2));
    SquareNonNegative(ps2);
  }

  // The vector tmp_vect, one entry per position of i3 on track d.
  method BuildVector(rr: array<Word16>, k: Pick, c: int, d: int) returns (tmp: array<Word16>)
    requires rr.Length == DIM_RR && k.Valid(c, d)
    ensures fresh(tmp) && tmp.Length == NB_POS
    ensures forall n :: 0 <= n < NB_POS ==> tmp[n] == TmpVect(rr[..], k.a, k.i0, k.b, k.i1, d, d + STEP * n)
  {
    hide TmpVect;
    ghost var r := rr[..];
    tmp := new Word16[NB_POS];
    var p0, p1, p2 := Cross(d, d, k.a, k.i0), Cross(d, d, k.b, k.i1), NB_POS * d;
    for n := 0 to NB_POS
      invariant p2 == NB_POS * d + n
      invariant p0 == Cross(d, d, k.a, k.i0) + (if d < k.a then NB_POS * n else n)
      invariant p1 == Cross(d, d, k.b, k.i1) + (if d < k.b then NB_POS * n else n)
      invariant forall m :: 0 <= m < n ==> tmp[m] == TmpVect(r, k.a, k.i0, k.b, k.i1, d, d + STEP * m)
    {
      AfterSteps(d, n);
      assert p0 == Cross(d, d + STEP * n, k.a, k.i0) && p1 == Cross(d, d + STEP * n, k.b, k.i1);
      var t := ReadVector(rr, k, d, d + STEP * n, p0, p1, p2);
      tmp[n] := t;
      p0 := p0 + (if d < k.a then NB_POS else 1);
      p1 := p1 + (if d < k.b then NB_POS else 1);
      p2 := p2 + 1;
    }
  }

  method ReadVector(rr: array<Word16>, k: Pick, d: int, i3: int, p0: int, p1: int, p2: int) returns (t: Word16)
    requires rr.Length == DIM_RR && Tracks(k.a, k.b, d)
    requires 0 <= k.i0 < L_SUBFR && 0 <= k.i1 < L_SUBFR && 0 <= i3 < L_SUBFR
    requires p0 == Cross(d, i3, k.a, k.i0) && p1 == Cross(d, i3, k.b, k.i1) && p2 == Diag(d, i3)
    ensures t == TmpVect(rr[..], k.a, k.i0, k.b, k.i1, d, i3)
  {
    InMatrix(d, i3, k.a, k.i0);
    InMatrix(d, i3, k.b, k.i1);
    var s := Plus(Product(rr[p0], 0x4000), rr[p1], 0x4000);
    s := Plus(s, rr[p2], 0x2000);
    t := Round(s);
  }

  // The best of the candidates tried so far, and where it is.
  ghost predicate Found(dn: seq<Word16>, rr: seq<Word16>, k: Pick, c: int, d: int,
                        best: Score, ix: int, iy: int, tried: seq<Score>)
    requires Shape(dn, rr) && k.Valid(c, d)
  {
    && Holds(best, tried)
    && (best == Score(-1, 1) || FoundAt(dn, rr, k, c, d, best, ix, iy))
  }

  ghost predicate FoundAt(dn: seq<Word16>, rr: seq<Word16>, k: Pick, c: int, d: int, best: Score, ix: int, iy: int)
    requires Shape(dn, rr) && k.Valid(c, d)
  {
    && 0 <= ix < L_SUBFR && 0 <= iy < L_SUBFR && ix % STEP == c && iy % STEP == d
    && best == ScoreB(dn, rr, k, c, ix, d, iy)
  }

  /** Phase B: all 64 positions of the last two pulses. */
  method PhaseB(dn: array<Word16>, rr: array<Word16>, k: Pick, c: int, d: int, ix0: int, iy0: int)
    returns (best: Score, ix: int, iy: int)
    requires Shape(dn[..], rr[..]) && k.Valid(c, d) && 0 <= ix0 < L_SUBFR && 0 <= iy0 < L_SUBFR
    ensures 0 <= ix < L_SUBFR && 0 <= iy < L_SUBFR
    ensures Found(dn[..], rr[..], k, c, d, best, ix, iy, CandidatesB(dn[..], rr[..], k, c, d, MSIZE))
  {
    hide Better, AllPositive, DominatesAll, ScoreB, EnergyB2;
    ghost var ds, r := dn[..], rr[..];
    best, ix, iy := Score(-1, 1), ix0, iy0;
    var tmp := BuildVector(rr, k, c, d);
    var p0, p1, p2, p3 := Cross(c, c, k.a, k.i0), Cross(c, c, k.b, k.i1), NB_POS * c, Base(c, d);
    var i2 := c;
    for n := 0 to NB_POS
      invariant i2 == c + STEP * n && p2 == NB_POS * c + n && p3 == Base(c, d) + NB_POS * n
      invariant p0 == Cross(c, c, k.a, k.i0) + (if c < k.a then NB_POS * n else n)
      invariant p1 == Cross(c, c, k.b, k.i1) + (if c < k.b then NB_POS * n else n)
      invariant 0 <= ix < L_SUBFR && 0 <= iy < L_SUBFR
      invariant forall m :: 0 <= m < NB_POS ==> tmp[m] == TmpVect(r, k.a, k.i0, k.b, k.i1, d, d + STEP * m)
      invariant Found(ds, r, k, c, d, best, ix, iy, CandidatesB(ds, r, k, c, d, NB_POS * n))
    {
      AfterSteps(c, n);
      assert p0 == Cross(c, i2, k.a, k.i0) && p1 == Cross(c, i2, k.b, k.i1) && p2 == Diag(c, i2);
      var alp1 := ReadB2(rr, k, c, d, i2, p0, p1, p2);
      best, ix, iy := TryThirdPulse(dn, rr, k, c, d, n, alp1, p3, tmp, best, ix, iy);
      p0 := p0 + (if c < k.a then NB_POS else 1);
      p1 := p1 + (if c < k.b then NB_POS else 1);
      p2, p3, i2 := p2 + 1, p3 + NB_POS, i2 + STEP;
    }
  }

  method ReadB2(rr: array<Word16>, k: Pick, c: int, d: int, i2: int, p0: int, p1: int, p2: int) returns (alp1: Word32)
    requires rr.Length == DIM_RR && k.Valid(c, d) && 0 <= i2 < L_SUBFR
    requires p0 == Cross(c, i2, k.a, k.i0) && p1 == Cross(c, i2, k.b, k.i1) && p2 == Diag(c, i2)
    ensures alp1 == EnergyB2(rr[..], k.alp, k.a, k.i0, k.b, k.i1, c, i2)
  {
    InMatrix(c, i2, k.a, k.i0);
    InMatrix(c, i2, k.b, k.i1);
    alp1 := Plus(LMult(k.alp, 8192), rr[p0], 0x2000);
    alp1 := Plus(alp1, rr[p1], 0x2000);
    alp1 := Plus(alp1, rr[p2], 0x1000);
  }

  // The eight positions of i3 for the n-th position of i2; p3 starts the row of that position.
  method TryThirdPulse(dn: array<Word16>, rr: array<Word16>, k: Pick, c: int, d: int, n: int, alp1: Word32, p3: int,
                       tmp: array<Word16>, best0: Score, ix0: int, iy0: int)
    returns (best: Score, ix: int, iy: int)
    requires Shape(dn[..], rr[..]) && k.Valid(c, d) && 0 <= n < NB_POS && tmp.Length == NB_POS
    requires 0 <= ix0 < L_SUBFR && 0 <= iy0 < L_SUBFR
    requires alp1 == EnergyB2(rr[..], k.alp, k.a, k.i0, k.b, k.i1, c, c + STEP * n)
    requires p3 == Base(c, d) + NB_POS * n
    requires forall m :: 0 <= m < NB_POS ==> tmp[m] == TmpVect(rr[..], k.a, k.i0, k.b, k.i1, d, d + STEP * m)
    requires Found(dn[..], rr[..], k, c, d, best0, ix0, iy0, CandidatesB(dn[..], rr[..], k, c, d, NB_POS * n))
    ensures 0 <= ix < L_SUBFR && 0 <= iy < L_SUBFR
    ensures Found(dn[..], rr[..], k, c, d, best, ix, iy, CandidatesB(dn[..], rr[..], k, c, d, NB_POS * n + NB_POS))
  {
    hide Better, AllPositive, DominatesAll, ScoreB, EnergyB2, TmpVect;
    ghost var ds, r := dn[..], rr[..];
    best, ix, iy := best0, ix0, iy0;
    var i2 := c + STEP * n;
    AfterSteps(c, n);
    var ps1 := Add(k.ps, dn[i2]);
    for m := 0 to NB_POS
      invariant 0 <= ix < L_SUBFR && 0 <= iy < L_SUBFR
      invariant Found(ds, r, k, c, d, best, ix, iy, CandidatesB(ds, r, k, c, d, NB_POS * n + m))
    {
      var i3 := d + STEP * m;
      AfterSteps(d, m);
      var cand := ReadB(dn, rr, k, c, i2, d, i3, ps1, alp1, p3 + m, tmp[m]);
      ghost var tried := CandidatesB(ds, r, k, c, d, NB_POS * n + m);
      TryOne(best, tried, cand);
      NextCandidateB(ds, r, k, c, d, n, m);
      if Better(best, cand) {
        best, ix, iy := cand, i2, i3;
      }
    }
  }

  lemma NextCandidateB(dn: seq<Word16>, rr: seq<Word16>, k: Pick, c: int, d: int, n: int, m: int)
    requires Shape(dn, rr) && k.Valid(c, d) && 0 <= n < NB_POS && 0 <= m < NB_POS
    ensures CandidatesB(dn, rr, k, c, d, NB_POS * n + m + 1)
         == CandidatesB(dn, rr, k, c, d, NB_POS * n + m) + [ScoreB(dn, rr, k, c, c + STEP * n, d, d + STEP * m)]
  {
    hide ScoreB;
    var j := NB_POS * n + m;
    assert j / NB_POS == n && j % NB_POS == m;
  }

  method ReadB(dn: array<Word16>, rr: array<Word16>, k: Pick, c: int, i2: int, d: int, i3: int,
               ps1: Word16, alp1: Word32, p3: int, t: Word16)
    returns (cand: Score)
    requires Shape(dn[..], rr[..]) && k.Valid(c, d) && 0 <= i2 < L_SUBFR && 0 <= i3 < L_SUBFR
    requires ps1 == Add(k.ps, dn[i2]) && p3 == Cross(c, i2, d, i3)
    requires alp1 == EnergyB2(rr[..], k.alp, k.a, k.i0, k.b, k.i1, c, i2)
    requires t == TmpVect(rr[..], k.a, k.i0, k.b, k.i1, d, i3)
    ensures cand == ScoreB(dn[..], rr[..], k, c, i2, d, i3) && cand.sq >= 0
  {
    hide EnergyB2, TmpVect;
    InMatrix(c, i2, d, i3);
    var ps2 := Add(ps1, dn[i3]);
    var alp2 := Plus(alp1, rr[p3], 0x2000);
    alp2 := Plus(alp2, t, 0x8000);
    cand := Score(Mult(ps2, ps2), Round(alp2));
    SquareNonNegative(ps2);
  }

  // ----- The main loop: two searches for each of tracks 3 and 4

  // What one search did: its phase A and the tracks of its phase B.
  datatype Search = Search(x: int, y: int, triedA: seq<Score>, pick: Pick, c: int, d: int)

  ghost predicate SearchDone(dn: seq<Word16>, rr: seq<Word16>, s: Search)
    requires Shape(dn, rr)
  {
    s.pick.Valid(s.c, s.d) && PhaseADone(dn, rr, s.x, s.y, s.pick, s.triedA)
  }

  ghost function TriedB(dn: seq<Word16>, rr: seq<Word16>, s: Search): seq<Score>
    requires Shape(dn, rr) && SearchDone(dn, rr, s)
  {
    CandidatesB(dn, rr, s.pick, s.c, s.d, MSIZE)
  }

  // The four searches in order: tracks 2 and 3 then 0 and 1, tracks 3 and 0 then 1 and 2,
  // and the same with track 4 in place of 3.
  ghost predicate Searches(dn: seq<Word16>, rr: seq<Word16>, run: seq<Search>)
    requires Shape(dn, rr)
  {
    forall k :: 0 <= k < |run| ==>
      && SearchDone(dn, rr, run[k])
      && run[k].c == k % 2 && run[k].d == k % 2 + 1
      && run[k].pick.a == (if k % 2 == 0 then 2 else 3 + k / 2)
      && run[k].pick.b == (if k % 2 == 0 then 3 + k / 2 else 0)
  }

  datatype Pulses = Pulses(ip0: int, ip1: int, ip2: int, ip3: int) {
    predicate InFrame() {
      0 <= ip0 < L_SUBFR && 0 <= ip1 < L_SUBFR && 0 <= ip2 < L_SUBFR && 0 <= ip3 < L_SUBFR
    }
    predicate OnTracks() {
      && InFrame()
      && ip0 % STEP == 0 && ip1 % STEP == 1 && ip2 % STEP == 2 && (ip3 % STEP == 3 || ip3 % STEP == 4)
    }
  }

  function Assign(k: Pick, ix: int, iy: int): Pulses {
    if k.a == 2 then Pulses(ix, iy, k.i0, k.i1) else Pulses(k.i1, ix, iy, k.i0)
  }

  ghost predicate NonNegative(tried: seq<Score>) {
    forall j :: 0 <= j < |tried| ==> tried[j].sq >= 0
  }

  // If all energies are positive, best dominates every candidate of every list.
  ghost predicate Wins(best: Score, lists: seq<seq<Score>>) {
    && (forall k :: 0 <= k < |lists| ==> NonNegative(lists[k]))
    && ((forall k :: 0 <= k < |lists| ==> AllPositive(lists[k])) ==>
          if lists == [] then best == Score(-1, 1)
          else best.alp > 0 && best.sq >= 0 && forall k :: 0 <= k < |lists| ==> DominatesAll(best, lists[k]))
  }

  // Comparing the best of one more list with the winner of the others.
  lemma OneMoreList(best: Score, lists: seq<seq<Score>>, local: Score, list: seq<Score>)
    requires Wins(best, lists) && Holds(local, list) && list != []
    ensures Wins(if Better(best, local) then local else best, lists + [list])
    ensures AllPositive(list) && lists == [] ==> Better(best, local)
  {
    hide Better;
    var all := lists + [list];
    assert all[|lists|] == list && forall k :: 0 <= k < |lists| ==> all[k] == lists[k];
    assert NonNegative(list);
    if forall k :: 0 <= k < |all| ==> AllPositive(all[k]) {
      assert AllPositive(all[|lists|]);
      assert forall k :: 0 <= k < |lists| ==> AllPositive(all[k]) && AllPositive(lists[k]);
      if lists == [] {
        FirstIsBetter(best, local);
      } else {
        BetterOfTwo(best, lists, local, list);
      }
    } else if AllPositive(list) && lists == [] {
      FirstIsBetter(best, local);
    }
  }

  lemma BetterOfTwo(best: Score, lists: seq<seq<Score>>, local: Score, list: seq<Score>)
    requires best.alp > 0 && best.sq >= 0 && DominatesAll(local, list) && AllPositive(list) && NonNegative(list)
    requires forall k :: 0 <= k < |lists| ==>
      DominatesAll(best, lists[k]) && AllPositive(lists[k]) && NonNegative(lists[k])
    ensures Better(best, local) ==> forall k :: 0 <= k < |lists| ==> DominatesAll(local, lists[k])
    ensures !Better(best, local) ==> DominatesAll(best, list)
  {
    BetterIsExact(best, local);
    hide Better, AllPositive, NonNegative, DominatesAll;
    if Better(best, local) {
      forall k | 0 <= k < |lists| ensures DominatesAll(local, lists[k]) {
        DominatesAllTransitive(local, best, lists[k]);
      }
    } else {
      DominatesAllTransitive(best, local, list);
    }
  }

  lemma DominatesAllTransitive(x: Score, y: Score, tried: seq<Score>)
    requires x.alp > 0 && x.sq >= 0 && Dominates(x, y) && DominatesAll(y, tried)
    requires AllPositive(tried) && NonNegative(tried)
    ensures DominatesAll(x, tried)
  {
    forall k | 0 <= k < |tried| ensures Dominates(x, tried[k]) {
      DominatesTransitive(x, y, tried[k]);
    }
  }

  lemma FirstIsBetter(best: Score, local: Score)
    requires best == Score(-1, 1) && local.alp > 0 && local.sq >= 0
    ensures Better(best, local)
  {
    BetterIsExact(best, local);
    assert Product(local.sq, 1) >= 0 > Product(-1, local.alp);
  }

  ghost function Lists(dn: seq<Word16>, rr: seq<Word16>, run: seq<Search>): seq<seq<Score>>
    requires Shape(dn, rr) && Searches(dn, rr, run)
  {
    seq(|run|, k requires 0 <= k < |run| => TriedB(dn, rr, run[k]))
  }

  ghost predicate PositiveRun(dn: seq<Word16>, rr: seq<Word16>, run: seq<Search>)
    requires Shape(dn, rr) && Searches(dn, rr, run)
  {
    forall k :: 0 <= k < |run| ==> AllPositive(run[k].triedA) && AllPositive(TriedB(dn, rr, run[k]))
  }

  // The pulses ip are those of the w-th search, at phase-B positions wx and wy, and best is their score.
  ghost predicate WonBy(dn: seq<Word16>, rr: seq<Word16>, run: seq<Search>, best: Score, ip: Pulses, w: int, wx: int,
      wy: int)
    requires Shape(dn, rr) && Searches(dn, rr, run)
  {
    && 0 <= w < |run| && ip.OnTracks()
    && ip == Assign(run[w].pick, wx, wy)
    && FoundAt(dn, rr, run[w].pick, run[w].c, run[w].d, best, wx, wy)
  }

  // A search with positive energies accepts a candidate in both phases, on its tracks.
  lemma AcceptedOnTracks(dn: seq<Word16>, rr: seq<Word16>, run: seq<Search>, k: int, local: Score, ix: int, iy: int)
    requires Shape(dn, rr) && Searches(dn, rr, run) && 0 <= k < |run| <= 4 && PositiveRun(dn, rr, run)
    requires Found(dn, rr, run[k].pick, run[k].c, run[k].d, local, ix, iy, TriedB(dn, rr, run[k]))
    ensures WonBy(dn, rr, run, local, Assign(run[k].pick, ix, iy), k, ix, iy)
  {
    hide ScoreB, ScoreA, CandidatesA, TopTwo;
    assert AllPositive(run[k].triedA) && AllPositive(TriedB(dn, rr, run[k]));
    assert |TriedB(dn, rr, run[k])| == MSIZE;
  }

  /** One of the four searches: phase A, phase B, and the comparison with the best case. */
  method RunSearch(dn: array<Word16>, rr: array<Word16>, a: int, b: int, c: int, ix0: int, iy0: int, ps0: Word16,
                   best0: Score, ip0: Pulses, ghost run0: seq<Search>, ghost w0: int, ghost wx0: int, ghost wy0: int)
    returns (ix: int, iy: int, ps: Word16, best: Score, ip: Pulses,
             ghost run: seq<Search>, ghost w: int, ghost wx: int, ghost wy: int)
    requires Shape(dn[..], rr[..]) && forall j :: 0 <= j < L_SUBFR ==> dn[j] >= 0
    requires 0 <= ix0 < L_SUBFR && 0 <= iy0 < L_SUBFR && |run0| < 4 && c == |run0| % 2
    requires a == (if c == 0 then 2 else 3 + |run0| / 2) && b == (if c == 0 then 3 + |run0| / 2 else 0)
    requires ip0.InFrame() && Searches(dn[..], rr[..], run0) && Wins(best0, Lists(dn[..], rr[..], run0))
    requires PositiveRun(dn[..], rr[..], run0) && run0 != [] ==> WonBy(dn[..], rr[..], run0, best0, ip0, w0, wx0, wy0)
    ensures 0 <= ix < L_SUBFR && 0 <= iy < L_SUBFR && ip.InFrame() && |run| == |run0| + 1
    ensures Searches(dn[..], rr[..], run) && Wins(best, Lists(dn[..], rr[..], run))
    ensures PositiveRun(dn[..], rr[..], run) ==> WonBy(dn[..], rr[..], run, best, ip, w, wx, wy)
  {
    hide Better, PhaseADone, Wins, Found, AllPositive, FoundAt;
    ghost var d, r := dn[..], rr[..];
    ghost var x, y, triedA;
    var k: Pick;
    k, x, y, triedA := PhaseA(dn, rr, a, b, ix0, iy0, ps0);
    var local: Score;
    local, ix, iy := PhaseB(dn, rr, k, c, c + 1, k.i0, k.i1);
    ps := k.ps;
    run := run0 + [Search(x, y, triedA, k, c, c + 1)];
    AddSearch(d, r, run0, run[|run0|], best0, ip0, w0, wx0, wy0, local, ix, iy);
    if Better(best0, local) {
      best, ip, w, wx, wy := local, Assign(k, ix, iy), |run0|, ix, iy;
    } else {
      best, ip, w, wx, wy := best0, ip0, w0, wx0, wy0;
    }
  }

  lemma AddSearch(dn: seq<Word16>, rr: seq<Word16>, run0: seq<Search>, s: Search, best0: Score, ip0: Pulses,
                  w0: int, wx0: int, wy0: int, local: Score, ix: int, iy: int)
    requires Shape(dn, rr) && |run0| < 4 && Searches(dn, rr, run0) && Wins(best0, Lists(dn, rr, run0))
    requires PositiveRun(dn, rr, run0) && run0 != [] ==> WonBy(dn, rr, run0, best0, ip0, w0, wx0, wy0)
    requires SearchDone(dn, rr, s) && s.c == |run0| % 2 && s.d == s.c + 1
    requires s.pick.a == (if s.c == 0 then 2 else 3 + |run0| / 2)
        && s.pick.b == (if s.c == 0 then 3 + |run0| / 2 else 0)
    requires Found(dn, rr, s.pick, s.c, s.d, local, ix, iy, TriedB(dn, rr, s))
    ensures Searches(dn, rr, run0 + [s])
    ensures Wins(if Better(best0, local) then local else best0, Lists(dn, rr, run0 + [s]))
    ensures PositiveRun(dn, rr, run0 + [s]) && Better(best0, local) ==>
              WonBy(dn, rr, run0 + [s], local, Assign(s.pick, ix, iy), |run0|, ix, iy)
    ensures PositiveRun(dn, rr, run0 + [s]) && !Better(best0, local) ==>
              WonBy(dn, rr, run0 + [s], best0, ip0, w0, wx0, wy0)
  {
    hide Better, PhaseADone, Wins, AllPositive, FoundAt, ScoreB, Assign, Holds, CandidatesB;
    var run := run0 + [s];
    assert run[|run0|] == s && forall k :: 0 <= k < |run0| ==> run[k] == run0[k];
    assert Lists(dn, rr, run) == Lists(dn, rr, run0) + [TriedB(dn, rr, s)];
    assert |TriedB(dn, rr, s)| == MSIZE;
    OneMoreList(best0, Lists(dn, rr, run0), local, TriedB(dn, rr, s));
    if PositiveRun(dn, rr, run) {
      assert AllPositive(TriedB(dn, rr, run[|run0|]));
      assert forall k :: 0 <= k < |run0| ==> AllPositive(run[k].triedA) && AllPositive(TriedB(dn, rr, run[k]));
      assert PositiveRun(dn, rr, run0);
      AcceptedOnTracks(dn, rr, run, |run0|, local, ix, iy);
    }
  }

  /** The main loop.  If every energy computed is positive, the pulses returned lie on their
      tracks, (psk, alpk) is their score, and it dominates all 4 x 64 candidates of the
      second phases; without that assumption the four searches are still as described. */
  method SearchPulses(dn: array<Word16>, rr: array<Word16>)
    returns (ip: Pulses, best: Score, ghost run: seq<Search>, ghost w: int, ghost wx: int, ghost wy: int)
    requires Shape(dn[..], rr[..]) && forall j :: 0 <= j < L_SUBFR ==> dn[j] >= 0
    ensures ip.InFrame() && |run| == 4 && Searches(dn[..], rr[..], run)
    ensures PositiveRun(dn[..], rr[..], run) ==>
              && WonBy(dn[..], rr[..], run, best, ip, w, wx, wy)
              && forall k :: 0 <= k < 4 ==> DominatesAll(best, TriedB(dn[..], rr[..], run[k]))
  {
    hide PhaseADone, AllPositive, FoundAt, ScoreB, DominatesAll;
    ghost var d, r := dn[..], rr[..];
    best, ip := Score(-1, 1), Pulses(0, 1, 2, 3);
    var ix, iy, ps: Word16 := 0, 0, 0;
    run, w, wx, wy := [], 0, 0, 0;
    for track := 3 to 5
      invariant ip.InFrame() && |run| == 2 * (track - 3) && 0 <= ix < L_SUBFR && 0 <= iy < L_SUBFR
      invariant Searches(d, r, run) && Wins(best, Lists(d, r, run))
      invariant PositiveRun(d, r, run) && run != [] ==> WonBy(d, r, run, best, ip, w, wx, wy)
    {
      ix, iy, ps, best, ip, run, w, wx, wy := RunSearch(dn, rr, 2, track, 0, ix, iy, ps, best, ip, run, w, wx, wy);
      ix, iy, ps, best, ip, run, w, wx, wy := RunSearch(dn, rr, track, 0, 1, ix, iy, ps, best, ip, run, w, wx, wy);
    }
    if PositiveRun(d, r, run) {
      var lists := Lists(d, r, run);
      assert forall k :: 0 <= k < 4 ==> lists[k] == TriedB(d, r, run[k]);
    }
  }
}
