/** The correlations of the pulse search (COR_FUNC.C, ACELP_CA.C): what the backward-filtered target
    has to do with the filtered codeword, and which correlation a candidate is scored with. */
module PulseCorrelation {
  import opened BasicOp
  import opened Ld8a
  import opened PulseLayout
  import opened PulseSearch
  import opened PulseCode
  import opened PulseEnergy
  import opened CorFunc

  // ----- The target against filtered pulses

  // Sum over m < n of the target times the response to a unit pulse at i.
  ghost function Against(x: seq<Word16>, h: seq<Word16>, i: int, n: nat): int
    requires |x| == L_SUBFR && |h| == L_SUBFR && 0 <= i && n <= L_SUBFR
  {
    if n == 0 then 0 else Against(x, h, i, n - 1) + Product(x[n - 1], At(h, i, n - 1))
  }

  // Sum over m < n of the target times the first k filtered pulses.
  ghost function Scalar(x: seq<Word16>, h: seq<Word16>, pos: seq<int>, s: seq<bool>, k: nat, n: nat): int
    requires |x| == L_SUBFR && Pulsed(h, pos, s) && k <= |pos| && n <= L_SUBFR
  {
    if n == 0 then 0 else Scalar(x, h, pos, s, k, n - 1) + Product(x[n - 1], Filtered(h, pos, s, k, n - 1))
  }

  // No partial sum of Cor_h_X leaves 32 bits, and no product is -1 times -1.
  ghost predicate Unsaturated(x: seq<Word16>, h: seq<Word16>)
    requires |x| == L_SUBFR && |h| == L_SUBFR
  {
    && (forall k :: 0 <= k < L_SUBFR ==> h[k] > MIN_16)
    && forall i, n :: 0 <= i < L_SUBFR && 0 <= n <= L_SUBFR ==> MIN_32 <= 2 * Against(x, h, i, n) <= MAX_32
  }

  lemma {:induction false} AgainstNothing(x: seq<Word16>, h: seq<Word16>, i: int, n: nat)
    requires |x| == L_SUBFR && |h| == L_SUBFR && 0 <= n <= i <= L_SUBFR
    ensures Against(x, h, i, n) == 0
  {
    if n > 0 { AgainstNothing(x, h, i, n - 1); }
  }

  /** Without saturation a backward correlation is twice the scalar product of the target and the
      response to a unit pulse at its position. */
  lemma {:induction false} BackwardIsAgainst(x: seq<Word16>, h: seq<Word16>, i: nat, n: nat)
    requires |x| == L_SUBFR && |h| == L_SUBFR && Unsaturated(x, h) && i < L_SUBFR && i <= n <= L_SUBFR
    ensures Backward(x, h, i, n) == 2 * Against(x, h, i, n)
    decreases n
  {
    if n == i {
      AgainstNothing(x, h, i, n);
    } else {
      BackwardIsAgainst(x, h, i, n - 1);
      ProductBound(x[n - 1], h[n - 1 - i]);
    }
  }

  lemma {:induction false} ScalarStep(x: seq<Word16>, h: seq<Word16>, pos: seq<int>, s: seq<bool>, k: nat, n: nat)
    requires |x| == L_SUBFR && Pulsed(h, pos, s) && 0 < k <= |pos| && n <= L_SUBFR
    ensures Scalar(x, h, pos, s, k, n)
         == Scalar(x, h, pos, s, k - 1, n) + Product(Sgn(s[k - 1]), Against(x, h, pos[k - 1], n))
  {
    hide Filtered, At, Product;
    Scaling(s[k - 1], 0, 0, 0, 0);
    if n > 0 {
      ScalarStep(x, h, pos, s, k, n - 1);
      FilteredStep(h, pos, s, k, n - 1);
      var f, g, y := Filtered(h, pos, s, k - 1, n - 1), At(h, pos[k - 1], n - 1), x[n - 1] as int;
      Commuted(y, f + Product(Sgn(s[k - 1]), g));
      Commuted(y, f);
      Commuted(y, g);
      Scaling(s[k - 1], f, g, y, Against(x, h, pos[k - 1], n - 1));
    }
  }

  lemma Commuted(x: int, y: int)
    ensures Product(x, y) == Product(y, x)
  {}

  // The signed sum of the backward correlations at the pulses.
  ghost function SignedBackward(x: seq<Word16>, h: seq<Word16>, pos: seq<int>, s: seq<bool>, k: nat): int
    requires |x| == L_SUBFR && Pulsed(h, pos, s) && k <= |pos|
  {
    if k == 0 then 0
    else SignedBackward(x, h, pos, s, k - 1) + Product(Sgn(s[k - 1]), Backward(x, h, pos[k - 1], L_SUBFR))
  }

  /** Backward filtering is the adjoint of filtering: the signed sum of the backward correlations at
      the pulses is twice the scalar product of the target and the filtered codeword. */
  lemma {:induction false} AdjointLaw(x: seq<Word16>, h: seq<Word16>, pos: seq<int>, s: seq<bool>, k: nat)
    requires |x| == L_SUBFR && Pulsed(h, pos, s) && k <= |pos| && Unsaturated(x, h)
    ensures SignedBackward(x, h, pos, s, k) == 2 * Scalar(x, h, pos, s, k, L_SUBFR)
  {
    hide Unsaturated, Backward, Against, Filtered;
    if k == 0 {
      ScalarOfNone(x, h, pos, s, L_SUBFR);
    } else {
      AdjointLaw(x, h, pos, s, k - 1);
      ScalarStep(x, h, pos, s, k, L_SUBFR);
      BackwardIsAgainst(x, h, pos[k - 1], L_SUBFR);
    }
  }

  lemma {:induction false} ScalarOfNone(x: seq<Word16>, h: seq<Word16>, pos: seq<int>, s: seq<bool>, n: nat)
    requires |x| == L_SUBFR && Pulsed(h, pos, s) && n <= L_SUBFR
    ensures Scalar(x, h, pos, s, 0, n) == 0
  {
    if n > 0 { ScalarOfNone(x, h, pos, s, n - 1); }
  }

  // The signed sum of the scaled correlations at the pulses.
  ghost function SignedWords(d: seq<Word16>, pos: seq<int>, s: seq<bool>, k: nat): int
    requires |d| == L_SUBFR && |pos| == |s| && k <= |pos| && forall j :: 0 <= j < |pos| ==> 0 <= pos[j] < L_SUBFR
  {
    if k == 0 then 0 else SignedWords(d, pos, s, k - 1) + Product(Sgn(s[k - 1]), d[pos[k - 1]])
  }

  // The power of two by which Cor_h_X divides.
  function Unit(x: seq<Word16>, h: seq<Word16>): (t: int)
    requires |x| == |h| == L_SUBFR
    ensures t > 0
  {
    TwoTo(DownShift(Peak(x, h, L_SUBFR)))
  }

  /** The words of Cor_h_X have the same sum, divided by the common power of two, to one unit a pulse. */
  lemma {:induction false} ScaledSumNear(x: seq<Word16>, h: seq<Word16>, pos: seq<int>, s: seq<bool>, k: nat)
    requires |x| == L_SUBFR && Pulsed(h, pos, s) && k <= |pos| && Unsaturated(x, h)
    ensures var t := Unit(x, h);
      var e := Product(t, SignedWords(Correlations(x, h), pos, s, k)) - 2 * Scalar(x, h, pos, s, k, L_SUBFR);
      -Product(t, k) <= e <= Product(t, k)
  {
    AdjointLaw(x, h, pos, s, k);
    SumNear(x, h, pos, s, k);
  }

  lemma {:induction false} SumNear(x: seq<Word16>, h: seq<Word16>, pos: seq<int>, s: seq<bool>, k: nat)
    requires |x| == L_SUBFR && Pulsed(h, pos, s) && k <= |pos|
    ensures var t := Unit(x, h);
      var e := Product(t, SignedWords(Correlations(x, h), pos, s, k)) - SignedBackward(x, h, pos, s, k);
      -Product(t, k) <= e <= Product(t, k)
  {
    hide Backward, Unit, Product, Correlations;
    var t, d := Unit(x, h), Correlations(x, h);
    TimesZero(t);
    if k > 0 {
      SumNear(x, h, pos, s, k - 1);
      WordNear(x, h, pos[k - 1]);
      OneMore(t, s[k - 1], SignedWords(d, pos, s, k - 1), d[pos[k - 1]], Backward(x, h, pos[k - 1], L_SUBFR), k);
    }
  }

  lemma WordNear(x: seq<Word16>, h: seq<Word16>, i: int)
    requires |x| == |h| == L_SUBFR && 0 <= i < L_SUBFR
    ensures var t := Unit(x, h);
      t > 0 && -t <= Product(t, Correlations(x, h)[i]) - Backward(x, h, i, L_SUBFR) <= 0
  {
    hide Backward, Peak, DownShift, TwoTo, Correlations, Product;
    ThirteenBits(x, h);
    FloorNear(Backward(x, h, i, L_SUBFR), Unit(x, h), Correlations(x, h)[i]);
  }

  lemma TimesZero(t: int)
    ensures Product(t, 0) == 0
  {}

  lemma FloorNear(y: int, t: int, q: int)
    requires t > 0 && q == y / t
    ensures -t <= Product(t, q) - y <= 0
  {
    DivBounds(y, t);
  }

  lemma OneMore(t: int, positive: bool, sum: int, q: int, y: int, k: nat)
    requires t > 0 && k > 0 && -t <= Product(t, q) - y <= 0
    ensures var a := Product(t, sum + Product(Sgn(positive), q)) - Product(t, sum) - Product(Sgn(positive), y);
      -t <= a <= t
    ensures Product(t, k) == Product(t, k - 1) + t
  {
    assert t * (sum + q) == t * sum + t * q && t * (sum - q) == t * sum - t * q;
  }

  // ----- What a candidate is scored with

  // The rounded-down square of a sum of correlations.
  function SquareOf(sum: int): int { (Clamp16(sum) * Clamp16(sum)) / 0x8000 }

  // Correlations as Cor_h_X leaves them, with their signs removed.
  ghost predicate Magnitudes(dn: seq<Word16>) {
    |dn| == L_SUBFR && forall i :: 0 <= i < L_SUBFR ==> 0 <= dn[i] <= 0x2000
  }

  function SumAt(dn: seq<Word16>, i: int, j: int, k: int, l: int): int
    requires |dn| == L_SUBFR && 0 <= i < L_SUBFR && 0 <= j < L_SUBFR && 0 <= k < L_SUBFR && 0 <= l < L_SUBFR
  {
    dn[i] as int + dn[j] as int + dn[k] as int + dn[l] as int
  }

  lemma SquareOfFour(a: Word16, b: Word16, c: Word16, d: Word16)
    requires 0 <= a <= 0x2000 && 0 <= b <= 0x2000 && 0 <= c <= 0x2000 && 0 <= d <= 0x2000
    ensures var s := Add(Add(Add(a, b), c), d); Mult(s, s) as int == SquareOf(a as int + b + c + d)
  {
    SquareFits(Add(Add(Add(a, b), c), d));
  }

  lemma SquareFits(s: Word16)
    requires 0 <= s
    ensures Mult(s, s) as int == (s * s) / 0x8000
  {
    MulMono(s, 0x7fff, s);
    MulMono(s, 0x7fff, 0x7fff);
    DivBounds(s * s, 0x8000);
  }

  /** A candidate of phase A is scored with the correlations at its two positions. */
  lemma PairScored(dn: seq<Word16>, rr: seq<Word16>, a: int, i0: int, b: int, n: int)
    requires Magnitudes(dn) && |rr| == DIM_RR && 0 <= a <= 4 && 0 <= b <= 4 && a != b && (a <= 2 || b <= 2)
    requires 0 <= i0 < L_SUBFR && 0 <= n < NB_POS
    ensures CandidatesA(dn, rr, a, i0, b, NB_POS)[n].sq as int == SquareOf(dn[i0] as int + dn[b + STEP * n])
  {
    hide EnergyA, Mult;
    SquareOfFour(dn[i0], dn[b + STEP * n], 0, 0);
  }

  /** Each of the 64 candidates of a phase B is scored with the correlations at its own four positions. */
  lemma QuadrupleScored(dn: seq<Word16>, rr: seq<Word16>, k: Pick, c: int, d: int, m: int, n: int)
    requires Magnitudes(dn) && |rr| == DIM_RR && k.Valid(c, d) && 0 <= m < NB_POS && 0 <= n < NB_POS
    requires k.ps == Add(dn[k.i0], dn[k.i1])
    ensures CandidatesB(dn, rr, k, c, d, MSIZE)[NB_POS * m + n].sq as int
         == SquareOf(SumAt(dn, k.i0, k.i1, c + STEP * m, d + STEP * n))
  {
    hide EnergyB, Mult, SquareOf;
    var j := NB_POS * m + n;
    assert j / NB_POS == m && j % NB_POS == n;
    SquareOfFour(dn[k.i0], dn[k.i1], dn[c + STEP * m], dn[d + STEP * n]);
  }

  lemma PairOfPick(dn: seq<Word16>, rr: seq<Word16>, s: Search)
    requires Shape(dn, rr) && SearchDone(dn, rr, s) && AllPositive(s.triedA)
    ensures s.pick.Valid(s.c, s.d) && s.pick.ps == Add(dn[s.pick.i0], dn[s.pick.i1])
  {
    hide ScoreA, CandidatesA, DominatesAll, TopTwo;
  }

  /** The score returned holds the correlations at the four pulses returned. */
  lemma WinnerScored(dn: seq<Word16>, rr: seq<Word16>, run: seq<Search>, best: Score, ip: Pulses, w: int, wx: int,
      wy: int)
    requires Shape(dn, rr) && Searches(dn, rr, run) && Magnitudes(dn) && PositiveRun(dn, rr, run)
    requires WonBy(dn, rr, run, best, ip, w, wx, wy)
    ensures ip.InFrame() && best.sq as int == SquareOf(SumAt(dn, ip.ip0, ip.ip1, ip.ip2, ip.ip3))
  {
    hide EnergyB, SearchDone, TriedB, AllPositive, Mult;
    var k := run[w].pick;
    PairOfPick(dn, rr, run[w]);
    SquareOfFour(dn[k.i0], dn[k.i1], dn[wx], dn[wy]);
  }

  // ----- The same with signs

  /** The magnitudes at the pulses are the signed words of Cor_h_X. */
  lemma SignedMagnitudes(d: seq<Word16>, dn: seq<Word16>, sign: seq<Word16>, ip: Pulses)
    requires |d| == |dn| == |sign| == L_SUBFR && ip.InFrame()
    requires forall i :: 0 <= i < L_SUBFR ==> dn[i] == Abs(d[i]) && sign[i] == SignWord(d[i] >= 0)
    ensures SumAt(dn, ip.ip0, ip.ip1, ip.ip2, ip.ip3)
         == SignedWords(d, Positions(ip), PulseSigns(sign, ip), 4)
  {
    var pos, s := Positions(ip), PulseSigns(sign, ip);
    SignedStep(d, dn, sign, pos, s, 1);
    SignedStep(d, dn, sign, pos, s, 2);
    SignedStep(d, dn, sign, pos, s, 3);
    SignedStep(d, dn, sign, pos, s, 4);
    assert SignedWords(d, pos, s, 0) == 0;
  }

  lemma SignedStep(d: seq<Word16>, dn: seq<Word16>, sign: seq<Word16>, pos: seq<int>, s: seq<bool>, k: nat)
    requires |d| == |dn| == |sign| == L_SUBFR && |pos| == |s| && 0 < k <= |pos|
    requires forall j :: 0 <= j < |pos| ==> 0 <= pos[j] < L_SUBFR && s[j] == (sign[pos[j]] > 0)
    requires forall i :: 0 <= i < L_SUBFR ==> dn[i] == Abs(d[i]) && sign[i] == SignWord(d[i] >= 0)
    ensures SignedWords(d, pos, s, k) == SignedWords(d, pos, s, k - 1) + dn[pos[k - 1]]
  {}

  // sq is the square of the signed words at the pulses, and these are the target against the
  // filtered pulses, divided by half the power of two, to one unit a pulse.
  ghost predicate MatchedTo(x: seq<Word16>, h: seq<Word16>, pos: seq<int>, s: seq<bool>, sq: Word16) {
    && |x| == L_SUBFR && Pulsed(h, pos, s) && |pos| == 4
    && sq as int == SquareOf(SignedWords(Correlations(x, h), pos, s, 4))
    && -4 * Unit(x, h)
       <= Product(Unit(x, h), SignedWords(Correlations(x, h), pos, s, 4)) - 2 * Scalar(x, h, pos, s, 4, L_SUBFR)
       <= 4 * Unit(x, h)
  }

  lemma MatchedWords(x: seq<Word16>, h: seq<Word16>, pos: seq<int>, s: seq<bool>, sq: Word16)
    requires |x| == L_SUBFR && Pulsed(h, pos, s) && |pos| == 4 && Unsaturated(x, h)
    requires sq as int == SquareOf(SignedWords(Correlations(x, h), pos, s, 4))
    ensures MatchedTo(x, h, pos, s, sq)
  {
    hide Correlations, SquareOf, SignedWords, Unit, Scalar, Unsaturated;
    ScaledSumNear(x, h, pos, s, 4);
  }

  // A candidate with pulses at pos: the square of the sum of the correlations there, and the
  // energy of the filtered codeword.
  ghost predicate ScoredFor(cand: Score, dn: seq<Word16>, h: seq<Word16>, sign: seq<Word16>, pos: seq<int>) {
    && |dn| == |sign| == L_SUBFR && |pos| == 4 && (forall j :: 0 <= j < 4 ==> 0 <= pos[j] < L_SUBFR)
    && Pulsed(h, pos, SignsAt(sign, pos))
    && cand.sq as int == SquareOf(SumAt(dn, pos[0], pos[1], pos[2], pos[3]))
    && -39 * 0x1_0000
       < 0x10_0000 * (cand.alp as int) - 2 * Norm(h, pos, SignsAt(sign, pos), 4, L_SUBFR) <= 26 * 0x1_0000
  }

  lemma CandidateScored(dn: seq<Word16>, rr: seq<Word16>, h: seq<Word16>, sign: seq<Word16>, s: Search, m: int, n: int)
    requires Shape(dn, rr) && Magnitudes(dn) && Trusted(rr, h, sign) && SearchDone(dn, rr, s)
    requires 0 <= m < NB_POS && 0 <= n < NB_POS && |sign| == L_SUBFR
    ensures ScoredFor(TriedB(dn, rr, s)[NB_POS * m + n], dn, h, sign,
                      [s.pick.i0, s.pick.i1, s.c + STEP * m, s.d + STEP * n])
  {
    hide EnergyA, EnergyB, Trusted, Norm, SearchDone, SquareOf, Magnitudes;
    SearchPositive(dn, rr, h, sign, s);
    PairOfPick(dn, rr, s);
    QuadrupleScored(dn, rr, s.pick, s.c, s.d, m, n);
    OnTrackAt(s.c, m);
    OnTrackAt(s.d, n);
    EnergyBNear(rr, h, sign, s.pick, s.c, s.c + STEP * m, s.d, s.d + STEP * n);
    var j := NB_POS * m + n;
    assert j / NB_POS == m && j % NB_POS == n;
  }
}
