/** The energies of the pulse search (ACELP_CA.C): each is, up to rounding, the energy of the
    filtered codeword it stands for.  This makes every energy positive for every response that
    starts with the unit sample the coder puts there and whose own energy fits 32 bits. */
module PulseEnergy {
  import opened BasicOp
  import opened Ld8a
  import opened PulseLayout
  import opened PulseSearch
  import opened PulseCode
  import CorH

  // ----- The filtered codeword and its energy

  function Sgn(positive: bool): int { if positive then 1 else -1 }

  // Sample n of the response to a unit pulse at p.
  function At(h: seq<Word16>, p: int, n: int): int
    requires |h| == L_SUBFR && 0 <= p && 0 <= n < L_SUBFR
  {
    if n < p then 0 else h[n - p]
  }

  // Sum over m < n of the products of the responses to pulses at i and j.
  ghost function Overlapping(h: seq<Word16>, i: int, j: int, n: nat): int
    requires |h| == L_SUBFR && 0 <= i && 0 <= j && n <= L_SUBFR
  {
    if n == 0 then 0 else Overlapping(h, i, j, n - 1) + Product(At(h, i, n - 1), At(h, j, n - 1))
  }

  ghost predicate Pulsed(h: seq<Word16>, pos: seq<int>, s: seq<bool>) {
    |h| == L_SUBFR && |pos| == |s| && forall j :: 0 <= j < |pos| ==> 0 <= pos[j] < L_SUBFR
  }

  // Sum over m < n of the first k filtered pulses times the response to a pulse at p.
  ghost function Inner(h: seq<Word16>, pos: seq<int>, s: seq<bool>, k: nat, p: int, n: nat): int
    requires Pulsed(h, pos, s) && k <= |pos| && 0 <= p && n <= L_SUBFR
  {
    if n == 0 then 0 else Inner(h, pos, s, k, p, n - 1) + Product(Filtered(h, pos, s, k, n - 1), At(h, p, n - 1))
  }

  // Sum of the squares of the first n samples of the first k filtered pulses.
  ghost function Norm(h: seq<Word16>, pos: seq<int>, s: seq<bool>, k: nat, n: nat): int
    requires Pulsed(h, pos, s) && k <= |pos| && n <= L_SUBFR
  {
    if n == 0 then 0
    else Norm(h, pos, s, k, n - 1) + Product(Filtered(h, pos, s, k, n - 1), Filtered(h, pos, s, k, n - 1))
  }

  lemma FilteredStep(h: seq<Word16>, pos: seq<int>, s: seq<bool>, k: nat, n: int)
    requires Pulsed(h, pos, s) && 0 < k <= |pos| && 0 <= n < L_SUBFR
    ensures Filtered(h, pos, s, k, n) == Filtered(h, pos, s, k - 1, n) + Product(Sgn(s[k - 1]), At(h, pos[k - 1], n))
  {}

  lemma {:induction false} OverlapIsCorrelation(h: seq<Word16>, i: int, j: int, n: nat)
    requires |h| == L_SUBFR && 0 <= i < L_SUBFR && 0 <= j < L_SUBFR && n <= L_SUBFR
    ensures Overlapping(h, i, j, n) == if n <= Max(i, j) then 0 else CorH.DirectSum(h, i, j, Max(i, j), n)
  {
    if n > 0 { OverlapIsCorrelation(h, i, j, n - 1); }
  }

  lemma {:induction false} InnerStep(h: seq<Word16>, pos: seq<int>, s: seq<bool>, k: nat, p: int, n: nat)
    requires Pulsed(h, pos, s) && 0 < k <= |pos| && 0 <= p && n <= L_SUBFR
    ensures Inner(h, pos, s, k, p, n)
         == Inner(h, pos, s, k - 1, p, n) + Product(Sgn(s[k - 1]), Overlapping(h, pos[k - 1], p, n))
  {
    hide Filtered, At, Product;
    Scaling(s[k - 1], 0, 0, 0, 0);
    if n > 0 {
      InnerStep(h, pos, s, k, p, n - 1);
      FilteredStep(h, pos, s, k, n - 1);
      Scaling(s[k - 1], Filtered(h, pos, s, k - 1, n - 1), At(h, pos[k - 1], n - 1), At(h, p, n - 1),
              Overlapping(h, pos[k - 1], p, n - 1));
    }
  }

  lemma Scaling(positive: bool, f: int, g: int, y: int, c: int)
    ensures Product(f + Product(Sgn(positive), g), y) == Product(f, y) + Product(Sgn(positive), Product(g, y))
    ensures Product(Sgn(positive), c + Product(g, y))
        == Product(Sgn(positive), c) + Product(Sgn(positive), Product(g, y))
    ensures Product(Sgn(positive), 0) == 0
  {
    if positive {
      assert (f + g) * y == f * y + g * y;
    } else {
      assert (f - g) * y == f * y - g * y;
    }
  }

  lemma {:induction false} NormStep(h: seq<Word16>, pos: seq<int>, s: seq<bool>, k: nat, n: nat)
    requires Pulsed(h, pos, s) && 0 < k <= |pos| && n <= L_SUBFR
    ensures Norm(h, pos, s, k, n) == Norm(h, pos, s, k - 1, n)
      + 2 * Product(Sgn(s[k - 1]), Inner(h, pos, s, k - 1, pos[k - 1], n)) + Overlapping(h, pos[k - 1], pos[k - 1], n)
  {
    hide Filtered, At, Product;
    SquareScaling(s[k - 1], 0, 0, 0);
    if n > 0 {
      NormStep(h, pos, s, k, n - 1);
      FilteredStep(h, pos, s, k, n - 1);
      SquareScaling(s[k - 1], Filtered(h, pos, s, k - 1, n - 1), At(h, pos[k - 1], n - 1),
                    Inner(h, pos, s, k - 1, pos[k - 1], n - 1));
    }
  }

  lemma SquareScaling(positive: bool, f: int, g: int, c: int)
    ensures var x := f + Product(Sgn(positive), g);
      Product(x, x) == Product(f, f) + 2 * Product(Sgn(positive), Product(f, g)) + Product(g, g)
    ensures Product(Sgn(positive), c + Product(f, g))
        == Product(Sgn(positive), c) + Product(Sgn(positive), Product(f, g))
    ensures Product(Sgn(positive), 0) == 0
  {
    if positive {
      assert (f + g) * (f + g) == f * f + 2 * (f * g) + g * g;
    } else {
      assert (f - g) * (f - g) == f * f - 2 * (f * g) + g * g;
    }
  }

  lemma {:induction false} NothingFiltered(h: seq<Word16>, pos: seq<int>, s: seq<bool>, p: int, n: nat)
    requires Pulsed(h, pos, s) && 0 <= p && n <= L_SUBFR
    ensures Norm(h, pos, s, 0, n) == 0 && Inner(h, pos, s, 0, p, n) == 0
  {
    if n > 0 { NothingFiltered(h, pos, s, p, n - 1); }
  }

  // ----- Its lower bound: where the first pulse falls, no other has started

  lemma {:induction false} NormGrows(h: seq<Word16>, pos: seq<int>, s: seq<bool>, k: nat, m: nat, n: nat)
    requires Pulsed(h, pos, s) && k <= |pos| && m < n <= L_SUBFR
    ensures 0 <= Norm(h, pos, s, k, m)
    ensures Product(Filtered(h, pos, s, k, m), Filtered(h, pos, s, k, m)) <= Norm(h, pos, s, k, n)
    decreases n
  {
    hide Filtered;
    CorH.SquareSign(Filtered(h, pos, s, k, n - 1));
    if m < n - 1 {
      NormGrows(h, pos, s, k, m, n - 1);
    } else if m > 0 {
      NormGrows(h, pos, s, k, m - 1, n - 1);
    }
  }

  lemma {:induction false} NotStarted(h: seq<Word16>, pos: seq<int>, s: seq<bool>, k: nat, n: int)
    requires Pulsed(h, pos, s) && k <= |pos| && 0 <= n < L_SUBFR && forall j :: 0 <= j < k ==> n < pos[j]
    ensures Filtered(h, pos, s, k, n) == 0
  {
    if k > 0 { NotStarted(h, pos, s, k - 1, n); }
  }

  // Sample n is the first of pulse f, and all others among the first k start later.
  lemma {:induction false} FirstStart(h: seq<Word16>, pos: seq<int>, s: seq<bool>, k: nat, f: nat)
    requires Pulsed(h, pos, s) && f < k <= |pos| && forall j :: 0 <= j < k && j != f ==> pos[f] < pos[j]
    ensures Filtered(h, pos, s, k, pos[f]) == Product(Sgn(s[f]), h[0])
  {
    FilteredStep(h, pos, s, k, pos[f]);
    if f == k - 1 {
      NotStarted(h, pos, s, k - 1, pos[f]);
    } else {
      FirstStart(h, pos, s, k - 1, f);
      assert Product(Sgn(s[k - 1]), 0) == 0;
    }
  }

  ghost predicate Distinct(pos: seq<int>, k: nat)
    requires k <= |pos|
  {
    forall i, j :: 0 <= i < j < k ==> pos[i] != pos[j]
  }

  lemma {:induction false} Earliest(pos: seq<int>, k: nat) returns (f: nat)
    requires 0 < k <= |pos| && Distinct(pos, k)
    ensures f < k && forall j :: 0 <= j < k && j != f ==> pos[f] < pos[j]
  {
    if k == 1 {
      f := 0;
    } else {
      f := Earliest(pos, k - 1);
      if pos[k - 1] < pos[f] { f := k - 1; }
    }
  }

  /** Pulses at different positions cannot cancel: the energy is at least that of the first sample. */
  lemma NormAtLeast(h: seq<Word16>, pos: seq<int>, s: seq<bool>, k: nat)
    requires Pulsed(h, pos, s) && 0 < k <= |pos| && Distinct(pos, k)
    ensures Norm(h, pos, s, k, L_SUBFR) >= Product(h[0], h[0])
  {
    hide Filtered, Norm;
    var f := Earliest(pos, k);
    FirstStart(h, pos, s, k, f);
    NormGrows(h, pos, s, k, pos[f], L_SUBFR);
    SignSquare(s[f], h[0]);
  }

  lemma SignSquare(positive: bool, x: int)
    ensures Product(Product(Sgn(positive), x), Product(Sgn(positive), x)) == Product(x, x)
  {}

  // ----- The energy as a sum over pairs of pulses

  // Twice the correlation of the responses to two signed pulses.
  ghost function Pair(h: seq<Word16>, i: int, p: bool, j: int, q: bool): int
    requires |h| == L_SUBFR && 0 <= i < L_SUBFR && 0 <= j < L_SUBFR
  {
    Product(Sgn(p == q), 2 * CorH.Correlation(h, i, j))
  }

  lemma PairOverlap(h: seq<Word16>, i: int, p: bool, j: int, q: bool)
    requires |h| == L_SUBFR && 0 <= i < L_SUBFR && 0 <= j < L_SUBFR
    ensures Pair(h, i, p, j, q) == 2 * Product(Sgn(q), Product(Sgn(p), Overlapping(h, i, j, L_SUBFR)))
    ensures Pair(h, i, p, i, p) == 2 * Overlapping(h, i, i, L_SUBFR)
  {
    OverlapIsCorrelation(h, i, j, L_SUBFR);
    OverlapIsCorrelation(h, i, i, L_SUBFR);
    hide Overlapping, CorH.DirectSum;
  }

  // Pulses j < k of the list against pulse k.
  ghost function Crossed(h: seq<Word16>, pos: seq<int>, s: seq<bool>, j: nat, k: nat): int
    requires Pulsed(h, pos, s) && j <= k < |pos|
  {
    if j == 0 then 0 else Crossed(h, pos, s, j - 1, k) + Pair(h, pos[j - 1], s[j - 1], pos[k], s[k])
  }

  lemma {:induction false} InnerIsPairs(h: seq<Word16>, pos: seq<int>, s: seq<bool>, j: nat, k: nat)
    requires Pulsed(h, pos, s) && j <= k < |pos|
    ensures 2 * Product(Sgn(s[k]), Inner(h, pos, s, j, pos[k], L_SUBFR)) == Crossed(h, pos, s, j, k)
  {
    hide Inner, Overlapping, Pair;
    if j == 0 {
      NothingFiltered(h, pos, s, pos[k], L_SUBFR);
    } else {
      InnerIsPairs(h, pos, s, j - 1, k);
      InnerStep(h, pos, s, j, pos[k], L_SUBFR);
      PairOverlap(h, pos[j - 1], s[j - 1], pos[k], s[k]);
      SignedSum(s[k], Inner(h, pos, s, j - 1, pos[k], L_SUBFR),
                Product(Sgn(s[j - 1]), Overlapping(h, pos[j - 1], pos[k], L_SUBFR)));
    }
  }

  lemma SignedSum(positive: bool, x: int, y: int)
    ensures Product(Sgn(positive), x + y) == Product(Sgn(positive), x) + Product(Sgn(positive), y)
  {}

  lemma NormIsPairs(h: seq<Word16>, pos: seq<int>, s: seq<bool>, k: nat)
    requires Pulsed(h, pos, s) && 0 < k <= |pos|
    ensures 2 * Norm(h, pos, s, k, L_SUBFR) == 2 * Norm(h, pos, s, k - 1, L_SUBFR)
         + 2 * Crossed(h, pos, s, k - 1, k - 1) + Pair(h, pos[k - 1], s[k - 1], pos[k - 1], s[k - 1])
  {
    hide Norm, Inner, Overlapping, Pair, Crossed;
    NormStep(h, pos, s, k, L_SUBFR);
    InnerIsPairs(h, pos, s, k - 1, k - 1);
    PairOverlap(h, pos[k - 1], s[k - 1], pos[k - 1], s[k - 1]);
  }

  // Twice the energy of two and of four signed pulses.
  ghost function TwoPulses(h: seq<Word16>, i: int, p: bool, j: int, q: bool): int
    requires |h| == L_SUBFR && 0 <= i < L_SUBFR && 0 <= j < L_SUBFR
  {
    Pair(h, i, p, i, p) + 2 * Pair(h, i, p, j, q) + Pair(h, j, q, j, q)
  }

  lemma TwoIsNorm(h: seq<Word16>, i: int, p: bool, j: int, q: bool)
    requires |h| == L_SUBFR && 0 <= i < L_SUBFR && 0 <= j < L_SUBFR
    ensures TwoPulses(h, i, p, j, q) == 2 * Norm(h, [i, j], [p, q], 2, L_SUBFR)
  {
    hide Norm, Pair;
    var pos, s := [i, j], [p, q];
    NothingFiltered(h, pos, s, 0, L_SUBFR);
    NormIsPairs(h, pos, s, 1);
    NormIsPairs(h, pos, s, 2);
    assert Crossed(h, pos, s, 0, 0) == 0 == Crossed(h, pos, s, 0, 1);
  }

  ghost function FourPulses(h: seq<Word16>, pos: seq<int>, s: seq<bool>): int
    requires Pulsed(h, pos, s) && |pos| == 4
  {
    TwoPulses(h, pos[0], s[0], pos[1], s[1]) + TwoPulses(h, pos[2], s[2], pos[3], s[3])
    + 2 * (Pair(h, pos[0], s[0], pos[2], s[2]) + Pair(h, pos[1], s[1], pos[2], s[2]))
    + 2 * (Pair(h, pos[0], s[0], pos[3], s[3]) + Pair(h, pos[1], s[1], pos[3], s[3]))
  }

  lemma FourIsNorm(h: seq<Word16>, pos: seq<int>, s: seq<bool>)
    requires Pulsed(h, pos, s) && |pos| == 4
    ensures FourPulses(h, pos, s) == 2 * Norm(h, pos, s, 4, L_SUBFR)
  {
    hide Norm, Pair, Crossed;
    NothingFiltered(h, pos, s, 0, L_SUBFR);
    NormIsPairs(h, pos, s, 1);
    NormIsPairs(h, pos, s, 2);
    NormIsPairs(h, pos, s, 3);
    NormIsPairs(h, pos, s, 4);
    CrossedUpTo3(h, pos, s);
  }

  lemma CrossedUpTo3(h: seq<Word16>, pos: seq<int>, s: seq<bool>)
    requires Pulsed(h, pos, s) && |pos| == 4
    ensures Crossed(h, pos, s, 0, 0) == 0
    ensures Crossed(h, pos, s, 1, 1) == Pair(h, pos[0], s[0], pos[1], s[1])
    ensures Crossed(h, pos, s, 2, 2) == Pair(h, pos[0], s[0], pos[2], s[2]) + Pair(h, pos[1], s[1], pos[2], s[2])
    ensures Crossed(h, pos, s, 3, 3) == Pair(h, pos[0], s[0], pos[3], s[3]) + Pair(h, pos[1], s[1], pos[3], s[3])
                                      + Pair(h, pos[2], s[2], pos[3], s[3])
  {
    hide Pair;
    assert Crossed(h, pos, s, 0, 1) == Crossed(h, pos, s, 0, 2) == Crossed(h, pos, s, 0, 3) == 0;
    assert Crossed(h, pos, s, 1, 2) == Pair(h, pos[0], s[0], pos[2], s[2]);
    assert Crossed(h, pos, s, 1, 3) == Pair(h, pos[0], s[0], pos[3], s[3]);
    assert Crossed(h, pos, s, 2, 3) == Crossed(h, pos, s, 1, 3) + Pair(h, pos[1], s[1], pos[3], s[3]);
  }

  // ----- The words of the matrix

  // 2^16 times a word misses twice the signed correlation by less than two units below, one above.
  ghost predicate NearPair(word: int, pair: int) { -0x2_0000 < 0x1_0000 * word - pair <= 0x1_0000 }

  ghost predicate NearDiagonal(word: int, pair: int) { -0x1_0000 < 0x1_0000 * word - pair <= 0 }

  lemma SignedWord(x: Word16, positive: bool, c: int)
    requires x as int == c / 0x1_0000
    ensures NearPair(Mult(x, SignWord(positive)), Product(Sgn(positive), c))
  {
    var y: int := x;
    if positive {
      assert y * 0x7fff == 0x8000 * y - y;
      DivUnique(y * 0x7fff, 0x8000, if y > 0 then y - 1 else if y == MIN_16 then y + 1 else y);
    } else {
      DivUnique(y * -0x8000, 0x8000, -y);
    }
  }

  ghost predicate WordOk(rr: seq<Word16>, h: seq<Word16>, sign: seq<Word16>, i: int, j: int) {
    && |rr| == DIM_RR && |h| == |sign| == L_SUBFR && IsPair(i, j) && 0 <= Slot(i, j) < DIM_RR
    && var pair := Pair(h, i, sign[i] > 0, j, sign[j] > 0);
      if i == j then NearDiagonal(rr[Slot(i, j)], pair) else NearPair(rr[Slot(i, j)], pair)
  }

  // A signed matrix of exact correlations of h.
  ghost predicate ExactMatrix(rr: seq<Word16>, h: seq<Word16>, sign: seq<Word16>) {
    && |rr| == DIM_RR && |h| == |sign| == L_SUBFR
    && forall i, j :: IsPair(i, j) ==> WordOk(rr, h, sign, i, j)
  }

  lemma Sizes(rr: seq<Word16>, h: seq<Word16>, sign: seq<Word16>)
    requires ExactMatrix(rr, h, sign)
    ensures |rr| == DIM_RR && |h| == |sign| == L_SUBFR
  {}

  lemma DiagonalSlot(i: int, j: int)
    requires IsPair(i, j)
    ensures 0 <= Slot(i, j) < DIM_RR && (Slot(i, j) < 40 <==> i == j)
    ensures PosI(Slot(i, j)) == i && PosJ(Slot(i, j)) == j
  {
    InverseSlot(i, j);
    if i == j { AtDiagonal(Slot(i, j), i % STEP, i / STEP); }
    else { AtBlock(Slot(i, j), i % STEP, j % STEP, i / STEP, j / STEP); }
  }

  // The words Cor_h leaves, with the signs applied.
  lemma WordIsOk(rr0: seq<Word16>, H: seq<Word16>, rr: seq<Word16>, sign: seq<Word16>, i: int, j: int)
    requires |H| == |sign| == L_SUBFR && |rr| == DIM_RR && 2 * CorH.Energy(H) <= MAX_32
    requires CorH.IsCorrelationMatrix(rr0, CorH.Scaled(H)) && SignArray(sign) && IsPair(i, j)
    requires rr[..40] == rr0[..40]
    requires forall p :: 40 <= p < DIM_RR ==> rr[p] == Mult(rr0[p], SignFactor(sign, p))
    ensures WordOk(rr, CorH.Scaled(H), sign, i, j)
  {
    CorH.MatrixIsExact(rr0, H, i, j);
    DiagonalSlot(i, j);
    hide CorH.Scaled, CorH.Correlation, CorH.Energy, Mult, Slot, PosI, PosJ;
    var p := Slot(i, j);
    var c := 2 * CorH.Correlation(CorH.Scaled(H), i, j);
    if i == j {
      assert rr[p] == rr[..40][p] == rr0[..40][p] == rr0[p];
      DiagonalWord(rr0[p], c);
    } else {
      SignsAgree(sign, i, j);
      SignedWord(rr0[p], (sign[i] > 0) == (sign[j] > 0), c);
    }
  }

  lemma SignsAgree(sign: seq<Word16>, i: int, j: int)
    requires SignArray(sign) && 0 <= i < L_SUBFR && 0 <= j < L_SUBFR
    ensures ((sign[i] < 0) == (sign[j] < 0)) == ((sign[i] > 0) == (sign[j] > 0))
  {}

  lemma DiagonalWord(x: Word16, c: int)
    requires x as int == c / 0x1_0000
    ensures NearDiagonal(x, Product(Sgn(true), c))
  {}

  // ----- Phase A

  // Four times the energy of phase A, before rounding.
  function WordsA(rr: seq<Word16>, a: int, i: int, b: int, j: int): int
    requires |rr| == DIM_RR && 0 <= a <= 4 && 0 <= b <= 4 && a != b && (a <= 2 || b <= 2)
    requires 0 <= i < L_SUBFR && 0 <= j < L_SUBFR
  {
    InMatrix(a, i, b, j);
    InMatrix(b, j, a, i);
    rr[Diag(a, i)] + 2 * (rr[Cross(a, i, b, j)] as int) + rr[Diag(b, j)]
  }

  // No wrap-around can occur in phase A, whatever the matrix holds.
  lemma EnergyAClosed(rr: seq<Word16>, a: int, i: int, b: int, j: int)
    requires |rr| == DIM_RR && 0 <= a <= 4 && 0 <= b <= 4 && a != b && (a <= 2 || b <= 2)
    requires 0 <= i < L_SUBFR && 0 <= j < L_SUBFR
    ensures EnergyA(rr, a, i, b, j) as int == (WordsA(rr, a, i, b, j) + 2) / 4
  {
    InMatrix(a, i, b, j);
    InMatrix(b, j, a, i);
    hide Diag, Cross;
    SumA(rr[Diag(a, i)], rr[Cross(a, i, b, j)], rr[Diag(b, j)]);
  }

  lemma SumA(x: Word16, y: Word16, z: Word16)
    ensures Round(Plus(Plus(LMult(x, 8192), y, 0x8000), z, 0x4000)) as int == (x + 2 * (y as int) + z + 2) / 4
  {
    hide Wrap32, LAdd;
    var t0: int := 0x4000 * (x as int);
    var t1: int := t0 + Product(y, 0x8000);
    PlusWrapped(t0, y, 0x8000);
    PlusWrapped(t1, z, 0x4000);
    var t := t1 + Product(z, 0x4000);
    Wrap32Unique(t, t, 0);
    Wrap32Unique(t0, t0, 0);
    assert LMult(x, 8192) == t0;
    RoundQuarter(t, x + 2 * (y as int) + z);
  }

  lemma RoundQuarter(t: Word32, w: int)
    requires t == 0x4000 * w && t <= MAX_32 - 0x8000
    ensures Round(t) as int == (w + 2) / 4
  {}

  lemma PlusWrapped(acc: int, x: Word16, shift: int)
    ensures Plus(Wrap32(acc), x, shift) == Wrap32(acc + Product(x, shift))
  {
    hide Product;
    CorH.WrapAdd(acc, Product(x, shift));
  }

  // ----- Phase B

  // What the four words of pulse i3 add, before rounding.
  function WordsTmp(rr: seq<Word16>, a: int, i0: int, b: int, i1: int, d: int, i3: int): int
    requires |rr| == DIM_RR && Tracks(a, b, d) && 0 <= i0 < L_SUBFR && 0 <= i1 < L_SUBFR && 0 <= i3 < L_SUBFR
  {
    InMatrix(d, i3, a, i0);
    InMatrix(d, i3, b, i1);
    2 * (rr[Cross(d, i3, a, i0)] as int) + 2 * (rr[Cross(d, i3, b, i1)] as int) + rr[Diag(d, i3)]
  }

  lemma TmpClosed(rr: seq<Word16>, a: int, i0: int, b: int, i1: int, d: int, i3: int)
    requires |rr| == DIM_RR && Tracks(a, b, d) && 0 <= i0 < L_SUBFR && 0 <= i1 < L_SUBFR && 0 <= i3 < L_SUBFR
    ensures TmpVect(rr, a, i0, b, i1, d, i3) as int == (WordsTmp(rr, a, i0, b, i1, d, i3) + 4) / 8
  {
    InMatrix(d, i3, a, i0);
    InMatrix(d, i3, b, i1);
    hide Diag, Cross;
    SumTmp(rr[Cross(d, i3, a, i0)], rr[Cross(d, i3, b, i1)], rr[Diag(d, i3)]);
  }

  lemma SumTmp(x: Word16, y: Word16, z: Word16)
    ensures MIN_32 <= Product(x, 0x4000) <= MAX_32
    ensures Round(Plus(Plus(Product(x, 0x4000), y, 0x4000), z, 0x2000)) as int
         == (2 * (x as int) + 2 * (y as int) + z + 4) / 8
  {
    hide Wrap32, LAdd;
    var t0 := Product(x, 0x4000);
    var t1 := t0 + Product(y, 0x4000);
    PlusWrapped(t0, y, 0x4000);
    PlusWrapped(t1, z, 0x2000);
    var t := t1 + Product(z, 0x2000);
    Wrap32Unique(t0, t0, 0);
    Wrap32Unique(t, t, 0);
    RoundEighth(t, 2 * (x as int) + 2 * (y as int) + z);
  }

  lemma RoundEighth(t: Word32, w: int)
    requires t == 0x2000 * w && t <= MAX_32 - 0x8000
    ensures Round(t) as int == (w + 4) / 8
  {}

  // Sixteen times the energy of phase B with its two rounded parts, before the last rounding.
  function WordsB(rr: seq<Word16>, k: Pick, c: int, i2: int, d: int, i3: int): int
    requires |rr| == DIM_RR && k.Valid(c, d) && 0 <= i2 < L_SUBFR && 0 <= i3 < L_SUBFR
  {
    InMatrix(c, i2, k.a, k.i0);
    InMatrix(c, i2, k.b, k.i1);
    InMatrix(c, i2, d, i3);
    4 * (k.alp as int) + 2 * (rr[Cross(c, i2, k.a, k.i0)] as int) + 2 * (rr[Cross(c, i2, k.b, k.i1)] as int)
    + rr[Diag(c, i2)] + 2 * (rr[Cross(c, i2, d, i3)] as int) + 8 * (TmpVect(rr, k.a, k.i0, k.b, k.i1, d, i3) as int)
  }

  // Phase B does not wrap around either when its sum is in range.
  lemma EnergyBClosed(rr: seq<Word16>, k: Pick, c: int, i2: int, d: int, i3: int)
    requires |rr| == DIM_RR && k.Valid(c, d) && 0 <= i2 < L_SUBFR && 0 <= i3 < L_SUBFR
    requires -0x8_0000 <= WordsB(rr, k, c, i2, d, i3) <= 0x8_0000 - 9
    ensures EnergyB(rr, k, c, i2, d, i3) as int == (WordsB(rr, k, c, i2, d, i3) + 8) / 16
  {
    InMatrix(c, i2, k.a, k.i0);
    InMatrix(c, i2, k.b, k.i1);
    InMatrix(c, i2, d, i3);
    hide Diag, Cross, TmpVect;
    SumB(k.alp, rr[Cross(c, i2, k.a, k.i0)], rr[Cross(c, i2, k.b, k.i1)], rr[Diag(c, i2)], rr[Cross(c, i2, d, i3)],
         TmpVect(rr, k.a, k.i0, k.b, k.i1, d, i3));
  }

  lemma SumB(alp: Word16, x: Word16, y: Word16, z: Word16, u: Word16, v: Word16)
    requires -0x8_0000 <= 4 * (alp as int) + 2 * (x as int) + 2 * (y as int) + z + 2 * (u as int) + 8 * (v as int)
        <= 0x8_0000 - 9
    ensures Round(Plus(Plus(Plus(Plus(Plus(LMult(alp, 8192), x, 0x2000), y, 0x2000), z, 0x1000), u, 0x2000), v,
        0x8000)) as int
         == (4 * (alp as int) + 2 * (x as int) + 2 * (y as int) + z + 2 * (u as int) + 8 * (v as int) + 8) / 16
  {
    hide Wrap32, LAdd;
    var t0: int := 0x4000 * (alp as int);
    var t1 := t0 + Product(x, 0x2000);
    var t2 := t1 + Product(y, 0x2000);
    var t3 := t2 + Product(z, 0x1000);
    var t4 := t3 + Product(u, 0x2000);
    PlusWrapped(t0, x, 0x2000);
    PlusWrapped(t1, y, 0x2000);
    PlusWrapped(t2, z, 0x1000);
    PlusWrapped(t3, u, 0x2000);
    PlusWrapped(t4, v, 0x8000);
    var t := t4 + Product(v, 0x8000);
    Wrap32Unique(t0, t0, 0);
    Wrap32Unique(t, t, 0);
    assert LMult(alp, 8192) == t0;
    RoundSixteenth(t, 4 * (alp as int) + 2 * (x as int) + 2 * (y as int) + z + 2 * (u as int) + 8 * (v as int));
  }

  lemma RoundSixteenth(t: Word32, w: int)
    requires t == 0x1000 * w && t <= MAX_32 - 0x8000
    ensures Round(t) as int == (w + 8) / 16
  {}

  // ----- The energies against the codeword

  lemma DiagonalNear(rr: seq<Word16>, h: seq<Word16>, sign: seq<Word16>, a: int, i: int)
    requires ExactMatrix(rr, h, sign) && 0 <= a <= 4 && 0 <= i < L_SUBFR && i % STEP == a
    ensures 0 <= Diag(a, i) < DIM_RR && NearDiagonal(rr[Diag(a, i)], Pair(h, i, sign[i] > 0, i, sign[i] > 0))
  {
    hide Pair;
    assert IsPair(i, i) && WordOk(rr, h, sign, i, i);
  }

  lemma CrossNear(rr: seq<Word16>, h: seq<Word16>, sign: seq<Word16>, a: int, i: int, b: int, j: int)
    requires ExactMatrix(rr, h, sign) && 0 <= a <= 4 && 0 <= b <= 4 && a != b && (a <= 2 || b <= 2)
    requires 0 <= i < L_SUBFR && 0 <= j < L_SUBFR && i % STEP == a && j % STEP == b
    ensures 0 <= Cross(a, i, b, j) < DIM_RR
    ensures NearPair(rr[Cross(a, i, b, j)], Pair(h, i, sign[i] > 0, j, sign[j] > 0))
    ensures NearPair(rr[Cross(a, i, b, j)], Pair(h, j, sign[j] > 0, i, sign[i] > 0))
  {
    PairSymmetric(h, i, sign[i] > 0, j, sign[j] > 0);
    hide Pair;
    if a < b {
      assert IsPair(i, j) && WordOk(rr, h, sign, i, j);
    } else {
      assert IsPair(j, i) && WordOk(rr, h, sign, j, i);
    }
  }

  lemma PairSymmetric(h: seq<Word16>, i: int, p: bool, j: int, q: bool)
    requires |h| == L_SUBFR && 0 <= i < L_SUBFR && 0 <= j < L_SUBFR
    ensures Pair(h, i, p, j, q) == Pair(h, j, q, i, p)
  {
    DirectSymmetric(h, i, j, L_SUBFR);
  }

  lemma {:induction false} DirectSymmetric(h: seq<Word16>, i: int, j: int, n: int)
    requires |h| == L_SUBFR && 0 <= i < L_SUBFR && 0 <= j < L_SUBFR && Max(i, j) <= n <= L_SUBFR
    ensures CorH.DirectSum(h, i, j, Max(i, j), n) == CorH.DirectSum(h, j, i, Max(i, j), n)
  {
    if n > Max(i, j) { DirectSymmetric(h, i, j, n - 1); }
  }

  lemma WordsANear(rr: seq<Word16>, h: seq<Word16>, sign: seq<Word16>, a: int, i: int, b: int, j: int)
    requires ExactMatrix(rr, h, sign) && 0 <= a <= 4 && 0 <= b <= 4 && a != b && (a <= 2 || b <= 2)
    requires 0 <= i < L_SUBFR && 0 <= j < L_SUBFR && i % STEP == a && j % STEP == b
    ensures -6 * 0x1_0000 < 0x1_0000 * WordsA(rr, a, i, b, j) - TwoPulses(h, i, sign[i] > 0, j, sign[j] > 0)
        <= 2 * 0x1_0000
  {
    DiagonalNear(rr, h, sign, a, i);
    DiagonalNear(rr, h, sign, b, j);
    CrossNear(rr, h, sign, a, i, b, j);
    hide Pair, Diag, Cross, ExactMatrix;
  }

  lemma WordsTmpNear(rr: seq<Word16>, h: seq<Word16>, sign: seq<Word16>, a: int, i0: int, b: int, i1: int, d: int,
      i3: int)
    requires ExactMatrix(rr, h, sign) && Tracks(a, b, d) && 0 <= i0 < L_SUBFR && 0 <= i1 < L_SUBFR && 0 <= i3 < L_SUBFR
    requires i0 % STEP == a && i1 % STEP == b && i3 % STEP == d
    ensures var p, q, u := sign[i0] > 0, sign[i1] > 0, sign[i3] > 0;
      -9 * 0x1_0000 < 0x1_0000 * WordsTmp(rr, a, i0, b, i1, d, i3)
        - 2 * Pair(h, i0, p, i3, u) - 2 * Pair(h, i1, q, i3, u) - Pair(h, i3, u, i3, u) <= 4 * 0x1_0000
  {
    DiagonalNear(rr, h, sign, d, i3);
    CrossNear(rr, h, sign, d, i3, a, i0);
    CrossNear(rr, h, sign, d, i3, b, i1);
    hide Pair, Diag, Cross, ExactMatrix;
  }

  // The signs of the pulses of a candidate.
  function SignsAt(sign: seq<Word16>, pos: seq<int>): (s: seq<bool>)
    requires |sign| == L_SUBFR && forall j :: 0 <= j < |pos| ==> 0 <= pos[j] < L_SUBFR
    ensures |s| == |pos|
  {
    seq(|pos|, j requires 0 <= j < |pos| => sign[pos[j]] > 0)
  }

  lemma WordsBNear(rr: seq<Word16>, h: seq<Word16>, sign: seq<Word16>, k: Pick, c: int, i2: int, d: int, i3: int)
    requires ExactMatrix(rr, h, sign) && k.Valid(c, d) && k.OnTrack() && 0 <= i2 < L_SUBFR && 0 <= i3 < L_SUBFR
    requires i2 % STEP == c && i3 % STEP == d && k.alp == EnergyA(rr, k.a, k.i0, k.b, k.i1)
    ensures var pos := [k.i0, k.i1, i2, i3];
      && Pulsed(h, pos, SignsAt(sign, pos))
      && -32 * 0x1_0000 < 0x1_0000 * WordsB(rr, k, c, i2, d, i3) - FourPulses(h, pos, SignsAt(sign, pos))
          <= 18 * 0x1_0000
    ensures WordsB(rr, k, c, i2, d, i3) <= 0x8_0000 - 9
  {
    hide Pair, Diag, Cross, ExactMatrix, EnergyA, TmpVect, WordsA, WordsTmp, TwoPulses, NearPair, NearDiagonal;
    Sizes(rr, h, sign);
    var p, q, r, u := sign[k.i0] > 0, sign[k.i1] > 0, sign[i2] > 0, sign[i3] > 0;
    var pos := [k.i0, k.i1, i2, i3];
    assert SignsAt(sign, pos) == [p, q, r, u];
    EnergyAClosed(rr, k.a, k.i0, k.b, k.i1);
    TmpClosed(rr, k.a, k.i0, k.b, k.i1, d, i3);
    WordsAMax(rr, k.a, k.i0, k.b, k.i1);
    WordsTmpMax(rr, k.a, k.i0, k.b, k.i1, d, i3);
    WordsANear(rr, h, sign, k.a, k.i0, k.b, k.i1);
    WordsTmpNear(rr, h, sign, k.a, k.i0, k.b, k.i1, d, i3);
    DiagonalNear(rr, h, sign, c, i2);
    CrossNear(rr, h, sign, c, i2, k.a, k.i0);
    CrossNear(rr, h, sign, c, i2, k.b, k.i1);
    CrossNear(rr, h, sign, c, i2, d, i3);
    LastPair(h, i2, r, i3, u);
    Assemble(WordsA(rr, k.a, k.i0, k.b, k.i1), WordsTmp(rr, k.a, k.i0, k.b, k.i1, d, i3),
             rr[Cross(c, i2, k.a, k.i0)], rr[Cross(c, i2, k.b, k.i1)], rr[Diag(c, i2)], rr[Cross(c, i2, d, i3)],
             TwoPulses(h, k.i0, p, k.i1, q), Pair(h, k.i0, p, i2, r), Pair(h, k.i1, q, i2, r), Pair(h, i2, r, i2, r),
             Pair(h, i2, r, i3, u), Pair(h, k.i0, p, i3, u), Pair(h, k.i1, q, i3, u), Pair(h, i3, u, i3, u));
  }

  lemma LastPair(h: seq<Word16>, i: int, p: bool, j: int, q: bool)
    requires |h| == L_SUBFR && 0 <= i < L_SUBFR && 0 <= j < L_SUBFR
    ensures TwoPulses(h, i, p, j, q) == Pair(h, i, p, i, p) + 2 * Pair(h, i, p, j, q) + Pair(h, j, q, j, q)
  {}

  lemma WordsAMax(rr: seq<Word16>, a: int, i: int, b: int, j: int)
    requires |rr| == DIM_RR && 0 <= a <= 4 && 0 <= b <= 4 && a != b && (a <= 2 || b <= 2)
    requires 0 <= i < L_SUBFR && 0 <= j < L_SUBFR
    ensures WordsA(rr, a, i, b, j) <= 4 * 0x7fff
  {
    InMatrix(a, i, b, j);
    InMatrix(b, j, a, i);
    hide Diag, Cross;
  }

  lemma WordsTmpMax(rr: seq<Word16>, a: int, i0: int, b: int, i1: int, d: int, i3: int)
    requires |rr| == DIM_RR && Tracks(a, b, d) && 0 <= i0 < L_SUBFR && 0 <= i1 < L_SUBFR && 0 <= i3 < L_SUBFR
    ensures WordsTmp(rr, a, i0, b, i1, d, i3) <= 5 * 0x7fff
  {
    InMatrix(d, i3, a, i0);
    InMatrix(d, i3, b, i1);
    hide Diag, Cross;
  }

  lemma Assemble(ea: int, t: int, x: Word16, y: Word16, z: Word16, u: Word16, two: int, p02: int, p12: int, p22: int,
                 p23: int, p03: int, p13: int, p33: int)
    requires ea <= 4 * 0x7fff && t <= 5 * 0x7fff
    requires -6 * 0x1_0000 < 0x1_0000 * ea - two <= 2 * 0x1_0000
    requires -9 * 0x1_0000 < 0x1_0000 * t - 2 * p03 - 2 * p13 - p33 <= 4 * 0x1_0000
    requires NearPair(x, p02) && NearPair(y, p12) && NearDiagonal(z, p22) && NearPair(u, p23)
    ensures var w := 4 * ((ea + 2) / 4) + 2 * (x as int) + 2 * (y as int) + z + 2 * (u as int) + 8 * ((t + 4) / 8);
      && w <= 0x8_0000 - 9
      && -32 * 0x1_0000
           < 0x1_0000 * w - (two + (p22 + 2 * p23 + p33) + 2 * (p02 + p12) + 2 * (p03 + p13)) <= 18 * 0x1_0000
  {}

  // ----- Every energy is positive

  // A response the search can be trusted with: it starts at half the unit sample or above
  // after scaling, and the matrix holds its exact correlations.
  ghost predicate Trusted(rr: seq<Word16>, h: seq<Word16>, sign: seq<Word16>) {
    ExactMatrix(rr, h, sign) && h[0] >= 2048
  }

  lemma EnergyAPositive(rr: seq<Word16>, h: seq<Word16>, sign: seq<Word16>, a: int, i: int, b: int, j: int)
    requires Trusted(rr, h, sign) && 0 <= a <= 4 && 0 <= b <= 4 && a != b && (a <= 2 || b <= 2)
    requires 0 <= i < L_SUBFR && 0 <= j < L_SUBFR && i % STEP == a && j % STEP == b
    ensures EnergyA(rr, a, i, b, j) >= 31
  {
    hide ExactMatrix, EnergyA, WordsA, TwoPulses, Norm, Pair;
    Sizes(rr, h, sign);
    EnergyAClosed(rr, a, i, b, j);
    WordsANear(rr, h, sign, a, i, b, j);
    TwoIsNorm(h, i, sign[i] > 0, j, sign[j] > 0);
    NormAtLeast(h, [i, j], [sign[i] > 0, sign[j] > 0], 2);
    FirstSquare(h[0]);
  }

  /** Four times the energy of a candidate of phase A is that of its two filtered pulses, to
      within 7 words of the matrix below and 4 above. */
  lemma EnergyANear(rr: seq<Word16>, h: seq<Word16>, sign: seq<Word16>, a: int, i: int, b: int, j: int)
    requires ExactMatrix(rr, h, sign) && 0 <= a <= 4 && 0 <= b <= 4 && a != b && (a <= 2 || b <= 2)
    requires 0 <= i < L_SUBFR && 0 <= j < L_SUBFR && i % STEP == a && j % STEP == b
    ensures |rr| == DIM_RR && |sign| == L_SUBFR && Pulsed(h, [i, j], [sign[i] > 0, sign[j] > 0])
    ensures -7 * 0x1_0000 < 0x4_0000 * (EnergyA(rr, a, i, b, j) as int)
                            - 2 * Norm(h, [i, j], [sign[i] > 0, sign[j] > 0], 2, L_SUBFR) <= 4 * 0x1_0000
  {
    hide ExactMatrix, EnergyA, WordsA, TwoPulses, Norm, Pair;
    Sizes(rr, h, sign);
    EnergyAClosed(rr, a, i, b, j);
    WordsANear(rr, h, sign, a, i, b, j);
    TwoIsNorm(h, i, sign[i] > 0, j, sign[j] > 0);
  }

  lemma FirstSquare(x: int)
    requires x >= 2048
    ensures 2 * Product(x, x) >= 128 * 0x1_0000
  {
    MulMono(2048, x, 2048);
    MulMono(2048, x, x);
  }

  /** Sixteen times the energy of a candidate of phase B is the energy of its filtered codeword,
      in words of the matrix, to within 39 below and 26 above. */
  lemma EnergyBNear(rr: seq<Word16>, h: seq<Word16>, sign: seq<Word16>, k: Pick, c: int, i2: int, d: int, i3: int)
    requires Trusted(rr, h, sign) && k.Valid(c, d) && k.OnTrack() && 0 <= i2 < L_SUBFR && 0 <= i3 < L_SUBFR
    requires i2 % STEP == c && i3 % STEP == d && k.alp == EnergyA(rr, k.a, k.i0, k.b, k.i1)
    ensures var pos := [k.i0, k.i1, i2, i3];
      && Pulsed(h, pos, SignsAt(sign, pos))
      && -39 * 0x1_0000 < 0x10_0000 * (EnergyB(rr, k, c, i2, d, i3) as int)
                            - 2 * Norm(h, pos, SignsAt(sign, pos), 4, L_SUBFR) <= 26 * 0x1_0000
    ensures EnergyB(rr, k, c, i2, d, i3) >= 6
  {
    hide ExactMatrix, EnergyA, EnergyB, WordsB, FourPulses, Norm;
    Sizes(rr, h, sign);
    var pos := [k.i0, k.i1, i2, i3];
    var s := SignsAt(sign, pos);
    WordsBNear(rr, h, sign, k, c, i2, d, i3);
    FourIsNorm(h, pos, s);
    Apart(k, c, i2, d, i3);
    NormAtLeast(h, pos, s, 4);
    FirstSquare(h[0]);
    EnergyBClosed(rr, k, c, i2, d, i3);
  }

  lemma Apart(k: Pick, c: int, i2: int, d: int, i3: int)
    requires k.Valid(c, d) && k.OnTrack() && i2 % STEP == c && i3 % STEP == d
    ensures Distinct([k.i0, k.i1, i2, i3], 4)
  {
    var pos, tracks := [k.i0, k.i1, i2, i3], [k.a, k.b, c, d];
    forall i, j | 0 <= i < j < 4 ensures pos[i] != pos[j] {
      assert pos[i] % STEP == tracks[i] && pos[j] % STEP == tracks[j];
    }
  }

  lemma CandidatesAPositive(dn: seq<Word16>, rr: seq<Word16>, h: seq<Word16>, sign: seq<Word16>, a: int, i0: int,
      b: int)
    requires Shape(dn, rr) && Trusted(rr, h, sign) && 0 <= a <= 4 && 0 <= b <= 4 && a != b && (a <= 2 || b <= 2)
    requires 0 <= i0 < L_SUBFR && i0 % STEP == a
    ensures AllPositive(CandidatesA(dn, rr, a, i0, b, NB_POS))
  {
    hide EnergyA, Trusted;
    forall n | 0 <= n < NB_POS ensures ScoreA(dn, rr, a, i0, b, b + STEP * n).alp > 0 {
      OnTrackAt(b, n);
      EnergyAPositive(rr, h, sign, a, i0, b, b + STEP * n);
    }
  }

  lemma OnTrackAt(b: int, n: int)
    requires 0 <= b <= 4 && 0 <= n < NB_POS
    ensures 0 <= b + STEP * n < L_SUBFR && (b + STEP * n) % STEP == b
  {}

  lemma CandidatesBPositive(dn: seq<Word16>, rr: seq<Word16>, h: seq<Word16>, sign: seq<Word16>, k: Pick, c: int,
      d: int)
    requires Shape(dn, rr) && Trusted(rr, h, sign) && k.Valid(c, d) && k.OnTrack()
    requires k.alp == EnergyA(rr, k.a, k.i0, k.b, k.i1)
    ensures AllPositive(CandidatesB(dn, rr, k, c, d, MSIZE))
  {
    hide EnergyA, EnergyB, Trusted, Norm;
    forall n | 0 <= n < MSIZE
      ensures ScoreB(dn, rr, k, c, c + STEP * (n / NB_POS), d, d + STEP * (n % NB_POS)).alp > 0
    {
      OnTrackAt(c, n / NB_POS);
      OnTrackAt(d, n % NB_POS);
      EnergyBNear(rr, h, sign, k, c, c + STEP * (n / NB_POS), d, d + STEP * (n % NB_POS));
    }
  }

  lemma SearchPositive(dn: seq<Word16>, rr: seq<Word16>, h: seq<Word16>, sign: seq<Word16>, s: Search)
    requires Shape(dn, rr) && SearchDone(dn, rr, s) && Trusted(rr, h, sign)
    ensures AllPositive(s.triedA) && AllPositive(TriedB(dn, rr, s))
    ensures s.pick.OnTrack() && s.pick.alp == EnergyA(rr, s.pick.a, s.pick.i0, s.pick.b, s.pick.i1)
  {
    hide EnergyA, EnergyB, Trusted, CandidatesA, CandidatesB, DominatesAll;
    var k := s.pick;
    CandidatesAPositive(dn, rr, h, sign, k.a, s.x, k.b);
    CandidatesAPositive(dn, rr, h, sign, k.a, s.y, k.b);
    CandidatesBPositive(dn, rr, h, sign, k, s.c, s.d);
  }

  /** Then every energy the search compares is positive. */
  lemma AllEnergiesPositive(dn: seq<Word16>, rr: seq<Word16>, h: seq<Word16>, sign: seq<Word16>, run: seq<Search>)
    requires Shape(dn, rr) && Searches(dn, rr, run) && Trusted(rr, h, sign)
    ensures PositiveRun(dn, rr, run)
  {
    hide SearchDone, Trusted, TriedB;
    forall k | 0 <= k < |run| ensures AllPositive(run[k].triedA) && AllPositive(TriedB(dn, rr, run[k])) {
      SearchPositive(dn, rr, h, sign, run[k]);
    }
  }

  // ----- The condition on the response

  /** The response starts with at least the unit sample 4096, and twice its energy fits 32 bits. */
  ghost predicate Sound(H: seq<Word16>) {
    |H| == L_SUBFR && H[0] >= 4096 && 2 * CorH.Energy(H) <= MAX_32
  }

  // The scaling at most halves the first sample.
  lemma ScaledStart(H: seq<Word16>)
    requires Sound(H)
    ensures |CorH.Scaled(H)| == L_SUBFR && CorH.Scaled(H)[0] >= 2048
  {
    hide CorH.Scaled, CorH.Energy, TwoTo, Product;
    var k := CorH.ScalingIsExact(H);
    if k >= 0 { StartGrows(H[0], k); }
  }

  lemma StartGrows(x: int, k: nat)
    requires x >= 0
    ensures Product(x, TwoTo(k)) >= x
  {
    MulMono(1, TwoTo(k), x);
  }

  /** For a sound response the signed matrix can be trusted. */
  lemma SoundIsTrusted(H: seq<Word16>, rr0: seq<Word16>, rr: seq<Word16>, sign: seq<Word16>)
    requires Sound(H) && CorH.IsCorrelationMatrix(rr0, CorH.Scaled(H)) && SignArray(sign) && |rr| == DIM_RR
    requires rr[..40] == rr0[..40]
    requires forall p :: 40 <= p < DIM_RR ==> rr[p] == Mult(rr0[p], SignFactor(sign, p))
    ensures Trusted(rr, CorH.Scaled(H), sign)
  {
    hide CorH.Scaled, CorH.Energy, Mult, SignFactor, CorH.IsCorrelationMatrix, WordOk;
    ScaledStart(H);
    forall i, j | IsPair(i, j) ensures WordOk(rr, CorH.Scaled(H), sign, i, j) {
      WordIsOk(rr0, H, rr, sign, i, j);
    }
  }

  // ----- The energy of the winner

  // The filtered codeword does not depend on the order of its pulses.
  lemma FilteredFour(h: seq<Word16>, pos: seq<int>, s: seq<bool>, n: int)
    requires Pulsed(h, pos, s) && |pos| == 4 && 0 <= n < L_SUBFR
    ensures Filtered(h, pos, s, 4, n)
         == Product(Sgn(s[0]), At(h, pos[0], n)) + Product(Sgn(s[1]), At(h, pos[1], n))
          + Product(Sgn(s[2]), At(h, pos[2], n)) + Product(Sgn(s[3]), At(h, pos[3], n))
  {
    FilteredStep(h, pos, s, 1, n);
    FilteredStep(h, pos, s, 2, n);
    FilteredStep(h, pos, s, 3, n);
    FilteredStep(h, pos, s, 4, n);
    assert Filtered(h, pos, s, 0, n) == 0;
    hide At, Product, Filtered;
  }

  lemma {:induction false} SameNorm(h: seq<Word16>, pos: seq<int>, s: seq<bool>, pos': seq<int>, s': seq<bool>, n: nat)
    requires Pulsed(h, pos, s) && Pulsed(h, pos', s') && |pos| == |pos'| == 4 && n <= L_SUBFR
    requires forall m :: 0 <= m < L_SUBFR ==> Filtered(h, pos, s, 4, m) == Filtered(h, pos', s', 4, m)
    ensures Norm(h, pos, s, 4, n) == Norm(h, pos', s', 4, n)
  {
    if n > 0 { SameNorm(h, pos, s, pos', s', n - 1); }
  }

  // Positions and signs of the pulses, in the order of their tracks.
  function Positions(ip: Pulses): seq<int> { [ip.ip0, ip.ip1, ip.ip2, ip.ip3] }

  /** The score returned holds the energy of the codeword that is sent, filtered by the scaled
      response: sixteen times its energy is within 39 words of it. */
  lemma WinnerNear(dn: seq<Word16>, rr: seq<Word16>, h: seq<Word16>, sign: seq<Word16>, run: seq<Search>, best: Score,
                   ip: Pulses, w: int, wx: int, wy: int)
    requires Shape(dn, rr) && Searches(dn, rr, run) && Trusted(rr, h, sign) && WonBy(dn, rr, run, best, ip, w, wx, wy)
    ensures Pulsed(h, Positions(ip), PulseSigns(sign, ip))
    ensures -39 * 0x1_0000
      < 0x10_0000 * (best.alp as int) - 2 * Norm(h, Positions(ip), PulseSigns(sign, ip), 4, L_SUBFR) <= 26 * 0x1_0000
  {
    hide EnergyA, EnergyB, Trusted, Norm, SearchDone, TriedB, Filtered;
    TrustedSizes(rr, h, sign);
    var k, c, d := run[w].pick, run[w].c, run[w].d;
    PickValid(dn, rr, run[w]);
    SearchPositive(dn, rr, h, sign, run[w]);
    EnergyBNear(rr, h, sign, k, c, wx, d, wy);
    var pos := [k.i0, k.i1, wx, wy];
    var s := SignsAt(sign, pos);
    forall m | 0 <= m < L_SUBFR
      ensures Filtered(h, pos, s, 4, m) == Filtered(h, Positions(ip), PulseSigns(sign, ip), 4, m)
    {
      FilteredFour(h, pos, s, m);
      FilteredFour(h, Positions(ip), PulseSigns(sign, ip), m);
    }
    SameNorm(h, pos, s, Positions(ip), PulseSigns(sign, ip), L_SUBFR);
  }

  lemma PickValid(dn: seq<Word16>, rr: seq<Word16>, s: Search)
    requires Shape(dn, rr) && SearchDone(dn, rr, s)
    ensures s.pick.Valid(s.c, s.d)
  {}

  lemma TrustedSizes(rr: seq<Word16>, h: seq<Word16>, sign: seq<Word16>)
    requires Trusted(rr, h, sign)
    ensures |rr| == DIM_RR && |h| == |sign| == L_SUBFR
  {}

  // ----- Sharpening

  /** The response before sharpening starts with the unit sample and its energy is at most a
      quarter of what a sound response may have. */
  ghost predicate Quiet(h: seq<Word16>) {
    |h| == L_SUBFR && h[0] >= 4096 && 8 * CorH.Energy(h) <= MAX_32
  }

  lemma SharpSample(a: Word16, b: Word16, sharp: Word16)
    requires sharp >= 0
    ensures var y := Add(a, Mult(b, sharp)); Product(y, y) <= 2 * Product(a, a) + 2 * Product(b, b)
  {
    var x, y: int := Mult(b, sharp), Add(a, Mult(b, sharp));
    ScaledDown(b, sharp);
    CorH.TwiceProduct(a, b);
    var m := Abs(a) + Abs(b);
    MulMono(Abs(y), m, Abs(y));
    MulMono(Abs(y), m, m);
    AbsSquare(y);
    AbsSquare(a);
    AbsSquare(b);
    SumSquare(Abs(a), Abs(b));
  }

  lemma ScaledDown(b: Word16, sharp: Word16)
    requires sharp >= 0
    ensures Abs(Mult(b, sharp)) <= Abs(b)
  {
    var p: int := (b as int) * sharp;
    if b >= 0 {
      MulMono(sharp, 0x8000, b);
      MulMono(0, sharp, b);
    } else {
      MulMono(sharp, 0x8000, -(b as int));
      MulMono(0, sharp, -(b as int));
      assert p == -(-(b as int) * sharp);
    }
  }

  lemma AbsSquare(x: int)
    ensures Abs(x) * Abs(x) == Product(x, x)
  {}

  lemma SumSquare(a: int, b: int)
    ensures (a + b) * (a + b) <= 2 * (a * a) + 2 * (b * b)
  {
    assert (a + b) * (a + b) + (a - b) * (a - b) == 2 * (a * a) + 2 * (b * b);
    CorH.SquareSign(a - b);
  }

  lemma {:induction false} SharpEnergy(h: seq<Word16>, lag: int, sharp: Word16, m: nat)
    requires |h| == L_SUBFR && L_SUBFR <= 2 * lag && sharp >= 0 && m <= L_SUBFR
    ensures CorH.Lag(Sharpened(h, lag, sharp), 0, m)
         <= 2 * CorH.Lag(h, 0, m) + 2 * CorH.Lag(h, 0, if m < lag then 0 else m - lag)
  {
    hide Add, Mult, Product;
    if m > 0 {
      SharpEnergy(h, lag, sharp, m - 1);
      CorH.SquareSign(h[m - 1]);
      if m - 1 >= lag {
        assert SharpAt(h, lag, sharp, m - 1 - lag) == h[m - 1 - lag];
        SharpSample(h[m - 1], h[m - 1 - lag], sharp);
      }
    }
  }

  /** Sharpening by any lag the codec knows leaves a quiet response sound. */
  lemma QuietIsSound(h: seq<Word16>, lag: int, sharp: Word16)
    requires Quiet(h) && PIT_MIN <= lag && sharp >= 0
    ensures Sound(Sharpened(h, lag, sharp))
  {
    SharpEnergy(h, lag, sharp, L_SUBFR);
    CorH.EnergyIsSquares(h, L_SUBFR);
    var m := if L_SUBFR < lag then 0 else L_SUBFR - lag;
    CorH.EnergyIsSquares(h, m);
    CorH.SquaresMonotone(h, 0, m, 0, L_SUBFR);
  }
}
