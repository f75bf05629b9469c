/** ACELP_Code_A (ACELP_CA.C): the fixed-codebook search of one subframe, from the
    impulse response and the target to the codeword and its two indices. */
module Acelp {
  import opened BasicOp
  import opened Ld8a
  import opened PulseLayout
  import opened PulseSearch
  import opened PulseCode
  import opened PulseEnergy
  import opened PulseCorrelation
  import CorFunc
  import CorH

  // Magnitudes of dn, and the correlations with the signs of dn taken into account.
  ghost predicate SignedProblem(dn0: seq<Word16>, rr0: seq<Word16>, dn: seq<Word16>, rr: seq<Word16>,
      sign: seq<Word16>)
  {
    && Shape(dn0, rr0) && Shape(dn, rr) && SignArray(sign)
    && (forall i :: 0 <= i < L_SUBFR ==> dn[i] == Abs(dn0[i]) && sign[i] == SignWord(dn0[i] >= 0))
    && rr[..40] == rr0[..40]
    && forall p :: 40 <= p < DIM_RR ==> rr[p] == Mult(rr0[p], SignFactor(sign, p))
  }

  // What the search of one subframe did, for the statement of AcelpCode.
  datatype Trace = Trace(dn: seq<Word16>, rr: seq<Word16>, sign: seq<Word16>, ip: Pulses, best: Score,
                         run: seq<Search>, w: int, wx: int, wy: int)

  ghost predicate Searched(dn0: seq<Word16>, rr0: seq<Word16>, t: Trace) {
    && SignedProblem(dn0, rr0, t.dn, t.rr, t.sign)
    && t.ip.InFrame() && |t.run| == 4 && Searches(t.dn, t.rr, t.run)
    && (PositiveRun(t.dn, t.rr, t.run) ==>
          && WonBy(t.dn, t.rr, t.run, t.best, t.ip, t.w, t.wx, t.wy)
          && forall k :: 0 <= k < 4 ==> DominatesAll(t.best, TriedB(t.dn, t.rr, t.run[k])))
  }

  // y is the codeword of the trace filtered by h, in 16 bits.
  ghost predicate IsFilteredCode(y: seq<Word16>, h: seq<Word16>, t: Trace) {
    && |y| == |h| == |t.sign| == L_SUBFR && t.ip.InFrame()
    && forall n :: 0 <= n < L_SUBFR ==> y[n] == Wrap16(Filtered(h, Positions(t.ip), PulseSigns(t.sign, t.ip), 4, n))
  }

  /** D4i40_17_fast. */
  method SearchCodebook(dn: array<Word16>, rr: array<Word16>, h: array<Word16>, cod: array<Word16>, y: array<Word16>)
    returns (index: Word16, sign: Word16, ghost t: Trace)
    requires dn.Length == h.Length == cod.Length == y.Length == L_SUBFR && rr.Length == DIM_RR
    requires dn != rr && y != h && cod != h && y != cod && dn != h && rr != h && dn != cod && rr != cod
    requires forall i :: 0 <= i < L_SUBFR ==> dn[i] > MIN_16
    modifies dn, rr, cod, y
    ensures Searched(old(dn[..]), old(rr[..]), t)
    ensures cod[..] == Codeword(t.ip, PulseSigns(t.sign, t.ip))
    ensures index == PositionIndex(t.ip) && sign == SignIndex(PulseSigns(t.sign, t.ip))
    ensures IsFilteredCode(y[..], old(h[..]), t)
  {
    hide Searches, WonBy, PositiveRun, DominatesAll, TriedB, Mult, SignFactor, Codeword, Filtered;
    ghost var dn0, rr0, hs := dn[..], rr[..], h[..];
    var signDn, signInv := ChooseSigns(dn);
    forall i | 0 <= i < L_SUBFR ensures dn[i] == Abs(dn0[i]) {
      Wrap16Unique(Abs(dn0[i]), Abs(dn0[i]), 0);
    }
    ghost var dn1 := dn[..];
    ApplySigns(rr, signDn, signInv);
    assert dn[..] == dn1;
    ghost var rr1, sign1 := rr[..], signDn[..];
    assert SignedProblem(dn0, rr0, dn1, rr1, sign1);
    var ip: Pulses, best: Score;
    ghost var run, w, wx, wy;
    ip, best, run, w, wx, wy := SearchPulses(dn, rr);
    t := Trace(dn1, rr1, sign1, ip, best, run, w, wx, wy);
    index, sign := EmitCode(ip, signDn, cod);
    ghost var cod1 := cod[..];
    FilterCode(ip, signDn, h, y);
    assert cod[..] == cod1;
  }

  /** ACELP_Code_A.  The correlations searched are those of the sharpened response with
      itself and with the target, and the codeword returned is the sharpened form of the
      one the two indices stand for. */
  method AcelpCode(x: array<Word16>, h: array<Word16>, lag: Word16, pitchSharp: Word16,
                   code: array<Word16>, y: array<Word16>)
    returns (index: Word16, sign: Word16, ghost rr0: seq<Word16>, ghost t: Trace)
    requires x.Length == h.Length == code.Length == y.Length == L_SUBFR && lag > 0
    requires x != h && y != h && code != h && y != code
    modifies h, code, y
    ensures h[..] == Sharpened(old(h[..]), lag, Shl(pitchSharp, 1))
    ensures CorH.IsCorrelationMatrix(rr0, CorH.Scaled(h[..]))
    ensures Searched(CorFunc.Correlations(old(x[..]), h[..]), rr0, t)
    ensures index == PositionIndex(t.ip) && sign == SignIndex(PulseSigns(t.sign, t.ip))
    ensures code[..] == Sharpened(Codeword(t.ip, PulseSigns(t.sign, t.ip)), lag, Shl(pitchSharp, 1))
    ensures IsFilteredCode(y[..], h[..], t)
  {
    hide CorH.IsCorrelationMatrix, CorH.Scaled, CorFunc.Correlations, Searched, Sharpened, Codeword, Shl, SignIndex,
      PositionIndex, IsFilteredCode, PulseSigns;
    ghost var xs := x[..];
    var sharp := Shl(pitchSharp, 1);
    Sharpen(h, lag, sharp);
    ghost var hs := h[..];
    var rr := new Word16[DIM_RR];
    CorH.ComputeCorrelations(h, rr);
    rr0 := rr[..];
    var dn := new Word16[L_SUBFR];
    CorFunc.CorHX(h, x, dn);
    CorFunc.ThirteenBits(xs, hs);
    index, sign, t := SearchCodebook(dn, rr, h, code, y);
    assert h[..] == hs;
    Sharpen(code, lag, sharp);
  }

  // The trace of a search of the fixed codebook for target x and sharpened response h.
  ghost predicate SearchOf(x: seq<Word16>, h: seq<Word16>, t: Trace) {
    && |x| == |h| == L_SUBFR
    && exists rr0 :: CorH.IsCorrelationMatrix(rr0, CorH.Scaled(h)) && Searched(CorFunc.Correlations(x, h), rr0, t)
  }

  // Every energy compared in the search is positive.
  ghost predicate Positive(t: Trace) {
    Shape(t.dn, t.rr) && Searches(t.dn, t.rr, t.run) && PositiveRun(t.dn, t.rr, t.run)
  }

  /** For a sound response every energy the search compares is positive, whatever the target. */
  lemma EnergiesPositive(dn0: seq<Word16>, h: seq<Word16>, rr0: seq<Word16>, t: Trace)
    requires Sound(h) && CorH.IsCorrelationMatrix(rr0, CorH.Scaled(h)) && Searched(dn0, rr0, t)
    ensures Positive(t) && Trusted(t.rr, CorH.Scaled(h), t.sign)
  {
    hide CorH.IsCorrelationMatrix, CorH.Scaled, Sound, Trusted, Searches, PositiveRun, DominatesAll, TriedB, Mult,
      SignFactor, WonBy;
    SoundIsTrusted(h, rr0, t.rr, t.sign);
    AllEnergiesPositive(t.dn, t.rr, CorH.Scaled(h), t.sign, t.run);
  }

  /** So for a sound response the pulses lie on their tracks, their score dominates all 256
      candidates of the second phases, it holds the energy of the filtered codeword, and the
      square of the signed correlations of the target at the pulses. */
  lemma SoundSearch(x: seq<Word16>, h: seq<Word16>, t: Trace)
    requires Sound(h) && SearchOf(x, h, t)
    ensures t.ip.OnTracks() && |t.run| == 4 && Shape(t.dn, t.rr) && Searches(t.dn, t.rr, t.run)
    ensures forall k :: 0 <= k < 4 ==> DominatesAll(t.best, TriedB(t.dn, t.rr, t.run[k]))
    ensures Pulsed(CorH.Scaled(h), Positions(t.ip), PulseSigns(t.sign, t.ip))
    ensures -39 * 0x1_0000
      < 0x10_0000 * (t.best.alp as int) - 2 * Norm(CorH.Scaled(h), Positions(t.ip), PulseSigns(t.sign, t.ip), 4,
          L_SUBFR)
      <= 26 * 0x1_0000
    ensures t.best.sq as int
         == SquareOf(SignedWords(CorFunc.Correlations(x, h), Positions(t.ip), PulseSigns(t.sign, t.ip), 4))
  {
    hide CorH.IsCorrelationMatrix, CorH.Scaled, Sound, Trusted, Searches, PositiveRun, DominatesAll, TriedB,
      SignedProblem, Norm, CorFunc.Correlations, SquareOf, SignedWords, Magnitudes;
    var rr0 :| CorH.IsCorrelationMatrix(rr0, CorH.Scaled(h)) && Searched(CorFunc.Correlations(x, h), rr0, t);
    EnergiesPositive(CorFunc.Correlations(x, h), h, rr0, t);
    WinnerNear(t.dn, t.rr, CorH.Scaled(h), t.sign, t.run, t.best, t.ip, t.w, t.wx, t.wy);
    SmallCorrelations(x, h, rr0, t);
    WinnerScored(t.dn, t.rr, t.run, t.best, t.ip, t.w, t.wx, t.wy);
    SignsOf(x, h, t);
    SignedMagnitudes(CorFunc.Correlations(x, h), t.dn, t.sign, t.ip);
  }

  lemma SmallCorrelations(x: seq<Word16>, h: seq<Word16>, rr0: seq<Word16>, t: Trace)
    requires |x| == |h| == L_SUBFR && SignedProblem(CorFunc.Correlations(x, h), rr0, t.dn, t.rr, t.sign)
    ensures Magnitudes(t.dn) && |t.sign| == L_SUBFR
    ensures var d := CorFunc.Correlations(x, h);
      forall i :: 0 <= i < L_SUBFR ==> t.dn[i] == Abs(d[i]) && t.sign[i] == SignWord(d[i] >= 0)
  {
    CorFunc.ThirteenBits(x, h);
    hide CorFunc.Correlations, CorFunc.Backward, CorFunc.Peak, CorFunc.DownShift, Mult, SignFactor;
  }

  /** The correlation that the winner is scored with is that of the target and the filtered
      codeword, divided by half the power of two of Cor_h_X, to four units, when no sum saturates. */
  lemma TargetMatched(x: seq<Word16>, h: seq<Word16>, t: Trace)
    requires Sound(h) && SearchOf(x, h, t) && Unsaturated(x, h)
    ensures t.ip.InFrame() && |t.sign| == L_SUBFR
    ensures MatchedTo(x, h, Positions(t.ip), PulseSigns(t.sign, t.ip), t.best.sq)
  {
    hide Sound, SearchOf, CorFunc.Correlations, SquareOf, SignedWords, Unsaturated, Norm, MatchedTo, Searches, TriedB,
      DominatesAll, CorH.Scaled;
    SoundSearch(x, h, t);
    SignsOf(x, h, t);
    SameLength(x, h, t);
    MatchedWords(x, h, Positions(t.ip), PulseSigns(t.sign, t.ip), t.best.sq);
  }

  /** Every candidate that the winner is compared with is scored in the same way, with its own pulses. */
  lemma CandidateMeaning(x: seq<Word16>, h: seq<Word16>, t: Trace, s: Search, m: int, n: int)
    requires Sound(h) && SearchOf(x, h, t) && s in t.run && 0 <= m < NB_POS && 0 <= n < NB_POS
    ensures Shape(t.dn, t.rr) && SearchDone(t.dn, t.rr, s) && |t.sign| == L_SUBFR
    ensures ScoredFor(TriedB(t.dn, t.rr, s)[NB_POS * m + n], t.dn, CorH.Scaled(h), t.sign,
                      [s.pick.i0, s.pick.i1, s.c + STEP * m, s.d + STEP * n])
  {
    hide CorH.IsCorrelationMatrix, CorH.Scaled, Sound, Trusted, PositiveRun, DominatesAll, SignedProblem,
      CorFunc.Correlations, Magnitudes, SearchDone, WonBy, TriedB, ScoredFor;
    var rr0 :| CorH.IsCorrelationMatrix(rr0, CorH.Scaled(h)) && Searched(CorFunc.Correlations(x, h), rr0, t);
    EnergiesPositive(CorFunc.Correlations(x, h), h, rr0, t);
    SmallCorrelations(x, h, rr0, t);
    CandidateScored(t.dn, t.rr, CorH.Scaled(h), t.sign, s, m, n);
  }

  /** The indices and the codeword of one subframe, told apart from the search behind them. */
  method FixedCodebook(x: array<Word16>, h: array<Word16>, lag: Word16, pitchSharp: Word16)
    returns (index: Word16, sign: Word16, code: array<Word16>, ghost t: Trace, ghost signs: seq<bool>)
    requires x.Length == h.Length == L_SUBFR && lag > 0 && x != h
    modifies h
    ensures h[..] == Sharpened(old(h[..]), lag, Shl(pitchSharp, 1)) && SearchOf(old(x[..]), h[..], t)
    ensures fresh(code) && t.ip.InFrame() && |signs| == 4 && (Sound(h[..]) ==> t.ip.OnTracks())
    ensures index == PositionIndex(t.ip) && sign == SignIndex(signs)
    ensures code[..] == Sharpened(Codeword(t.ip, signs), lag, Shl(pitchSharp, 1))
  {
    hide CorH.IsCorrelationMatrix, CorH.Scaled, CorFunc.Correlations, Sharpened, Codeword, Shl, SignIndex,
      PositionIndex, Searches, DominatesAll, TriedB, Sound, Filtered;
    code := new Word16[L_SUBFR];
    var y := new Word16[L_SUBFR];
    ghost var rr0;
    index, sign, rr0, t := AcelpCode(x, h, lag, pitchSharp, code, y);
    signs := PulseSigns(t.sign, t.ip);
    if Sound(h[..]) { SoundSearch(old(x[..]), h[..], t); }
  }

  /** For a sound response the decoder's codeword, before sharpening, is the searched one. */
  lemma DecoderRebuildsCodeword(x: seq<Word16>, h: seq<Word16>, t: Trace)
    requires Sound(h) && SearchOf(x, h, t)
    ensures |t.sign| == L_SUBFR && t.ip.InFrame()
    ensures var s := PulseSigns(t.sign, t.ip);
      Codeword(DecodedPulses(PositionIndex(t.ip)), DecodedSigns(SignIndex(s))) == Codeword(t.ip, s)
  {
    hide Sound, SearchOf, PositionIndex, SignIndex, Codeword, DecodedPulses, DecodedSigns;
    SoundSearch(x, h, t);
    SignsOf(x, h, t);
    CodewordRoundTrip(t.ip, PulseSigns(t.sign, t.ip));
  }

  lemma SameLength(x: seq<Word16>, h: seq<Word16>, t: Trace)
    requires SearchOf(x, h, t)
    ensures |x| == |h| == L_SUBFR
  {}

  lemma SignsOf(x: seq<Word16>, h: seq<Word16>, t: Trace)
    requires SearchOf(x, h, t)
    ensures |t.sign| == L_SUBFR && t.ip.InFrame()
  {}

  // ----- Neither half of the condition can be dropped

  // A response of which only the first three samples differ from zero.
  ghost predicate Short(h: seq<Word16>) { |h| == L_SUBFR && forall n :: 3 <= n < L_SUBFR ==> h[n] == 0 }

  lemma {:induction false} ShortDiagonal(h: seq<Word16>, i: int, n: int)
    requires Short(h) && 0 <= i && i + 3 <= n <= L_SUBFR
    ensures CorH.DirectSum(h, i, i, i, n) == Product(h[0], h[0]) + Product(h[1], h[1]) + Product(h[2], h[2])
    decreases n
  {
    if n > i + 3 {
      ShortDiagonal(h, i, n - 1);
    } else {
      assert CorH.DirectSum(h, i, i, i, i) == 0;
      assert CorH.DirectSum(h, i, i, i, i + 1) == Product(h[0], h[0]);
      assert CorH.DirectSum(h, i, i, i, i + 2) == Product(h[0], h[0]) + Product(h[1], h[1]);
    }
  }

  lemma ShortEnergy(h: seq<Word16>)
    requires Short(h)
    ensures CorH.Energy(h) == Product(h[0], h[0]) + Product(h[1], h[1]) + Product(h[2], h[2])
  {
    ShortDiagonal(h, 0, L_SUBFR);
    CorH.RunningIsDirect(h, 0, 0, L_SUBFR);
    hide CorH.DirectSum;
  }

  // The diagonal word of a position with room for three samples.
  lemma ShortWord(h: seq<Word16>, rr0: seq<Word16>, dn0: seq<Word16>, t: Trace, a: int, i: int)
    requires Short(h) && CorH.IsCorrelationMatrix(rr0, h) && SignedProblem(dn0, rr0, t.dn, t.rr, t.sign)
    requires 0 <= a <= 4 && 0 <= i <= L_SUBFR - 3 && i % STEP == a
    ensures 0 <= Diag(a, i) < DIM_RR
    ensures t.rr[Diag(a, i)] == ExtractH(Wrap32(2 * (Product(h[0], h[0]) + Product(h[1], h[1]) + Product(h[2], h[2]))))
  {
    DiagonalSlot(i, i);
    ShortDiagonal(h, i, L_SUBFR);
    hide Mult, SignFactor, Wrap32, CorH.DirectSum;
    var p := Slot(i, i);
    assert t.rr[p] == t.rr[..40][p] == rr0[..40][p] == CorH.MatrixWord(h, p);
  }

  // The first candidate of a phase A.
  lemma FirstTried(dn: seq<Word16>, rr: seq<Word16>, s: Search)
    requires Shape(dn, rr) && SearchDone(dn, rr, s)
    ensures 0 <= s.x < L_SUBFR && s.x % STEP == s.pick.a && 0 <= s.pick.a <= 4 && 0 <= s.pick.b <= 4
    ensures s.pick.a != s.pick.b && (s.pick.a <= 2 || s.pick.b <= 2)
    ensures s.triedA != [] && s.triedA[0] == ScoreA(dn, rr, s.pick.a, s.x, s.pick.b, s.pick.b)
  {
    hide ScoreA, DominatesAll;
  }

  lemma FirstCandidate(dn0: seq<Word16>, rr0: seq<Word16>, t: Trace) returns (i: int)
    requires Searched(dn0, rr0, t)
    ensures 0 <= i <= L_SUBFR - 3 && i % STEP == 2 && |t.rr| == DIM_RR
    ensures Positive(t) ==> EnergyA(t.rr, 2, i, 3, 3) > 0
  {
    hide EnergyA, TriedB, WonBy, DominatesAll, SearchDone, Mult, SignFactor;
    FirstTried(t.dn, t.rr, t.run[0]);
    i := t.run[0].x;
  }

  // Two diagonal words at the most negative value, or all words zero, leave no positive energy.
  lemma NoPositive(h: seq<Word16>, rr0: seq<Word16>, dn0: seq<Word16>, t: Trace)
    requires Short(h) && CorH.IsCorrelationMatrix(rr0, h) && Searched(dn0, rr0, t)
    requires Wrap32(2 * (Product(h[0], h[0]) + Product(h[1], h[1]) + Product(h[2], h[2]))) < MIN_32 + 0x1_0000
    ensures !Positive(t)
  {
    hide EnergyA, Positive;
    var i := FirstCandidate(dn0, rr0, t);
    ShortWord(h, rr0, dn0, t, 2, i);
    ShortWord(h, rr0, dn0, t, 3, 3);
    EnergyAClosed(t.rr, 2, i, 3, 3);
  }

  // Starts with the unit sample, but twice its energy is a little more than 2^32.
  const LOUD: seq<Word16> := [4096, 0x7fff, 0x7fff] + seq(L_SUBFR - 3, _ => 0)

  lemma LoudScaled()
    ensures Short(LOUD) && 2 * CorH.Energy(LOUD) == 0x1_0000_0000 + 0x1fc_0004
    ensures CorH.Scaled(LOUD) == [MIN_16, -8, -8] + seq(L_SUBFR - 3, _ => 0)
  {
    ShortEnergy(LOUD);
    hide CorH.Energy, NormL;
    Wrap32Unique(2 * CorH.Energy(LOUD), 0x1fc_0004, 1);
    LoudShift();
    assert TwoTo(3) == 8;
  }

  lemma LoudShift()
    ensures NormL(0x1fc_0004) == 6
  {
    hide NormMagnitude;
    assert TwoTo(6) == 64;
    NormUnique(0x1fc_0004, 6);
  }

  lemma NormUnique(m: nat, r: nat)
    requires 0 < m <= MAX_32 && 0x4000_0000 <= Product(m, TwoTo(r)) < 0x8000_0000
    ensures NormMagnitude(m) == r
  {
    hide NormMagnitude, Product, TwoTo;
    var q := NormMagnitude(m);
    assert Product(m, TwoTo(q)) == m * TwoTo(q) by { IsProduct(m, TwoTo(q)); }
    if q < r { Doubling(m, q, r); } else if r < q { Doubling(m, r, q); }
  }

  lemma Doubling(m: nat, q: nat, r: nat)
    requires q < r
    ensures 2 * Product(m, TwoTo(q)) <= Product(m, TwoTo(r))
  {
    TwoToMono(q + 1, r);
    MulMono(2 * TwoTo(q), TwoTo(r), m);
    assert m * (2 * TwoTo(q)) == 2 * (m * TwoTo(q));
  }

  /** A response may start with the unit sample and still lose positivity when its energy does
      not fit 32 bits: the running sums wrap. */
  lemma LoudResponse(x: seq<Word16>, t: Trace)
    requires SearchOf(x, LOUD, t)
    ensures LOUD[0] == 4096 && 2 * CorH.Energy(LOUD) > MAX_32 && !Positive(t)
  {
    hide CorH.IsCorrelationMatrix, CorFunc.Correlations, Searched, CorH.Energy, CorH.Scaled, Positive;
    LoudScaled();
    var rr0 :| CorH.IsCorrelationMatrix(rr0, CorH.Scaled(LOUD)) && Searched(CorFunc.Correlations(x, LOUD), rr0, t);
    var h := CorH.Scaled(LOUD);
    Wrap32Unique(2 * (Product(h[0], h[0]) + Product(h[1], h[1]) + Product(h[2], h[2])), MIN_32 + 256, 1);
    NoPositive(h, rr0, CorFunc.Correlations(x, LOUD), t);
  }

  const SILENT: seq<Word16> := seq(L_SUBFR, _ => 0)

  lemma {:induction false} SilentSum(i: int, j: int, n: int)
    requires 0 <= i < L_SUBFR && 0 <= j < L_SUBFR && Max(i, j) <= n <= L_SUBFR
    ensures CorH.DirectSum(SILENT, i, j, Max(i, j), n) == 0
    decreases n
  {
    if n > Max(i, j) { SilentSum(i, j, n - 1); }
  }

  lemma SilentScaled()
    ensures CorH.Scaled(SILENT) == SILENT && CorH.Energy(SILENT) == 0
  {
    SilentSum(0, 0, L_SUBFR);
    CorH.RunningIsDirect(SILENT, 0, 0, L_SUBFR);
    hide CorH.Energy;
    assert Wrap32(2 * CorH.Energy(SILENT)) == 0;
  }

  lemma SilentWord(rr0: seq<Word16>, dn0: seq<Word16>, t: Trace, p: int)
    requires CorH.IsCorrelationMatrix(rr0, SILENT) && SignedProblem(dn0, rr0, t.dn, t.rr, t.sign) && 0 <= p < DIM_RR
    ensures t.rr[p] == 0
  {
    SilentMatrix(rr0, p);
    hide Mult, SignFactor, CorH.IsCorrelationMatrix;
    if p < 40 {
      assert t.rr[p] == t.rr[..40][p] == rr0[..40][p];
    } else {
      MultOfZero(SignFactor(t.sign, p));
    }
  }

  lemma SilentMatrix(rr0: seq<Word16>, p: int)
    requires CorH.IsCorrelationMatrix(rr0, SILENT) && 0 <= p < DIM_RR
    ensures rr0[p] == 0
  {
    SlotInverse(p);
    SilentSum(PosI(p), PosJ(p), L_SUBFR);
    hide PosI, PosJ, Slot, CorH.DirectSum;
    assert rr0[p] == CorH.MatrixWord(SILENT, p);
  }

  lemma MultOfZero(y: Word16)
    ensures Mult(0, y) == 0
  {}

  /** And it loses positivity when it does not start with a large enough sample: for the zero
      response the energies are zero, and the ratio test refuses the candidates. */
  lemma SilentResponse(x: seq<Word16>, t: Trace)
    requires SearchOf(x, SILENT, t)
    ensures 2 * CorH.Energy(SILENT) <= MAX_32 && !Positive(t)
    ensures t.run != [] && t.run[0].triedA != []
    ensures t.run[0].triedA[0] == Score(0, 0) && !Better(Score(-1, 1), t.run[0].triedA[0])
  {
    hide CorH.IsCorrelationMatrix, CorFunc.Correlations, CorH.Energy, CorH.Scaled, EnergyA, SearchDone, TriedB, WonBy,
      DominatesAll, SignedProblem, Better;
    SilentScaled();
    var rr0 :| CorH.IsCorrelationMatrix(rr0, CorH.Scaled(SILENT)) && Searched(CorFunc.Correlations(x, SILENT), rr0, t);
    SilentCandidate(x, rr0, t);
    FirstAccepted(Score(0, 0));
  }

  lemma SilentCandidate(x: seq<Word16>, rr0: seq<Word16>, t: Trace)
    requires |x| == L_SUBFR
    requires CorH.IsCorrelationMatrix(rr0, SILENT) && Searched(CorFunc.Correlations(x, SILENT), rr0, t)
    ensures t.run[0].triedA != [] && t.run[0].triedA[0] == Score(0, 0)
  {
    hide CorH.IsCorrelationMatrix, EnergyA, SearchDone, TriedB, WonBy, DominatesAll, CorFunc.Correlations, Diag, Cross;
    FirstTried(t.dn, t.rr, t.run[0]);
    var i := t.run[0].x;
    InMatrix(2, i, 3, 3);
    InMatrix(3, 3, 2, i);
    SilentWord(rr0, CorFunc.Correlations(x, SILENT), t, Diag(2, i));
    SilentWord(rr0, CorFunc.Correlations(x, SILENT), t, Diag(3, 3));
    SilentWord(rr0, CorFunc.Correlations(x, SILENT), t, Cross(2, i, 3, 3));
    EnergyAClosed(t.rr, 2, i, 3, 3);
    SilentTarget(x);
    assert t.dn[i] == 0 && t.dn[3] == 0;
  }

  // Nothing correlates with the zero response.
  lemma SilentTarget(x: seq<Word16>)
    requires |x| == L_SUBFR
    ensures CorFunc.Correlations(x, SILENT) == SILENT
  {
    forall i | 0 <= i < L_SUBFR ensures CorFunc.Backward(x, SILENT, i, L_SUBFR) == 0 {
      SilentBackward(x, i, L_SUBFR);
    }
    hide CorFunc.Backward, CorFunc.DownShift;
    CorFunc.DownShiftFits(CorFunc.Peak(x, SILENT, L_SUBFR));
  }

  lemma {:induction false} SilentBackward(x: seq<Word16>, i: nat, n: nat)
    requires |x| == L_SUBFR && i <= n <= L_SUBFR
    ensures CorFunc.Backward(x, SILENT, i, n) == 0
    decreases n
  {
    hide LMac;
    if n > i {
      SilentBackward(x, i, n - 1);
      MacOfZero(x[n - 1]);
    }
  }

  lemma MacOfZero(x: Word16)
    ensures LMac(0, x, 0) == 0
  {}
}
