/** Cor_h (ACELP_CA.C): the 616 correlations of the impulse response, filled along
    diagonals by running sums in plain 32-bit arithmetic. */
module CorH {
  import opened BasicOp
  import opened Ld8a
  import opened PulseLayout

  // ----- The direct definition

  // Sum over n in [lo, hi) of h[n - i] * h[n - j].
  ghost function DirectSum(h: seq<Word16>, i: int, j: int, lo: int, hi: int): int
    requires |h| == L_SUBFR && 0 <= i <= lo && 0 <= j <= lo <= hi <= L_SUBFR
    decreases hi - lo
  {
    if lo == hi then 0 else DirectSum(h, i, j, lo, hi - 1) + Product(h[hi - 1 - i], h[hi - 1 - j])
  }

  // The correlation of pulses at positions i and j.
  ghost function Correlation(h: seq<Word16>, i: int, j: int): int
    requires |h| == L_SUBFR && 0 <= i < L_SUBFR && 0 <= j < L_SUBFR
  {
    DirectSum(h, i, j, Max(i, j), L_SUBFR)
  }

  // ----- The running form

  // First m terms of the autocorrelation of h at distance d.
  ghost function Lag(h: seq<Word16>, d: int, m: int): int
    requires 0 <= d && 0 <= m && d + m <= |h|
    decreases m
  {
    if m == 0 then 0 else Lag(h, d, m - 1) + Product(h[m - 1], h[m - 1 + d])
  }

  lemma {:induction false} RunningIsDirect(h: seq<Word16>, i: int, j: int, hi: int)
    requires |h| == L_SUBFR && 0 <= i < L_SUBFR && 0 <= j < L_SUBFR && Max(i, j) <= hi <= L_SUBFR
    ensures DirectSum(h, i, j, Max(i, j), hi) == Lag(h, Abs(i - j), hi - Max(i, j))
    decreases hi
  {
    if hi > Max(i, j) {
      RunningIsDirect(h, i, j, hi - 1);
      var m := hi - 1 - Max(i, j);
      assert Product(h[hi - 1 - i], h[hi - 1 - j]) == Product(h[m], h[m + Abs(i - j)]);
    }
  }

  ghost function Energy(h: seq<Word16>): int { Lag(h, 0, |h|) }

  // One unsaturated multiply-accumulate.
  function WrapMac(acc: Word32, x: Word16, y: Word16): Word32 {
    var a: int := acc;
    Wrap32(a + 2 * Product(x, y))
  }

  // ----- Scaling of the response

  function ScaleRight(H: seq<Word16>): seq<Word16> {
    seq(|H|, i requires 0 <= i < |H| => FloorShift(H[i], 1))
  }

  function ScaleLeft(H: seq<Word16>, k: nat): seq<Word16> {
    seq(|H|, i requires 0 <= i < |H| => Wrap16(Product(H[i], TwoTo(k))))
  }

  ghost function Scaled(H: seq<Word16>): (h: seq<Word16>)
    ensures |h| == |H|
  {
    var cor := Wrap32(2 * Energy(H));
    if ExtractH(cor) > 32000 then ScaleRight(H) else ScaleLeft(H, NormL(cor) / 2)
  }

  // ----- Bookkeeping: which words are final

  ghost function Entry(h: seq<Word16>, p: int): Word16
    requires |h| == L_SUBFR && 0 <= p < DIM_RR
  {
    SlotRange(p);
    ExtractH(Wrap32(2 * Lag(h, Distance(p), Overlap(p))))
  }

  // Diagonals are filled in order of d mod 5, then d div 5.
  ghost function Rank(d: int): int { NB_POS * (d % STEP) + d / STEP }

  ghost predicate Final(p: int, rank: int, m: int) {
    Rank(Distance(p)) < rank || (Rank(Distance(p)) == rank && Overlap(p) <= m)
  }

  ghost predicate Filled(rr: seq<Word16>, h: seq<Word16>, rank: int, m: int) {
    && |rr| == DIM_RR && |h| == L_SUBFR
    && forall p :: 0 <= p < DIM_RR && Final(p, rank, m) ==> rr[p] == Entry(h, p)
  }

  // Storing the running sum after m terms of distance d into its word.
  method Store(rr: array<Word16>, p: int, cor: Word32, ghost h: seq<Word16>, ghost d: int, ghost m: int)
    requires 0 <= p < rr.Length && Filled(rr[..], h, Rank(d), m - 1)
    requires Distance(p) == d && Overlap(p) == m && 0 <= d && 0 <= m && d + m <= L_SUBFR
    requires cor == Wrap32(2 * Lag(h, d, m))
    modifies rr
    ensures Filled(rr[..], h, Rank(d), m)
  {
    ghost var before := rr[..];
    rr[p] := ExtractH(cor);
    ghost var after := rr[..];
    forall q | 0 <= q < DIM_RR && Final(q, Rank(d), m)
      ensures after[q] == Entry(h, q)
    {
      if q != p {
        RankInjective(Distance(q), d, q);
        if Distance(q) == d && Overlap(q) == m { SlotUnique(p, q); }
        hide Entry, Distance, Overlap;
        assert after[q] == before[q];
      }
    }
  }

  lemma RankInjective(d: int, d': int, q: int)
    requires 0 <= q < DIM_RR && d == Distance(q) && 0 <= d'
    ensures Rank(d) == Rank(d') ==> d == d' || d' >= L_SUBFR
  {
    SlotRange(q);
  }

  // Nothing is stored for tracks 3 and 4.
  lemma Skip(rr: seq<Word16>, h: seq<Word16>, k: int, u: int, d: int, m: int)
    requires 0 <= d < L_SUBFR && Filled(rr, h, Rank(d), m - 1)
    requires (d == STEP * k + 1 && m == STEP * u + 1) || (d == STEP * k + 4 && m == STEP * u + 2)
    ensures Filled(rr, h, Rank(d), m)
  {
    forall q | 0 <= q < DIM_RR && Final(q, Rank(d), m)
      ensures rr[q] == Entry(h, q)
    {
      RankInjective(Distance(q), d, q);
      NoSlot(q, k, u, d, m);
    }
  }

  lemma NextDiagonal(rr: seq<Word16>, h: seq<Word16>, d: int, m: int)
    requires 0 <= d < L_SUBFR && m >= L_SUBFR - d && Filled(rr, h, Rank(d), m)
    ensures Filled(rr, h, Rank(d) + 1, 0)
  {
    forall q | 0 <= q < DIM_RR && Final(q, Rank(d) + 1, 0)
      ensures rr[q] == Entry(h, q)
    {
      RankInjective(Distance(q), d, q);
      SlotRange(q);
    }
  }

  lemma MacStep(h: seq<Word16>, d: int, m: int, cor: Word32)
    requires |h| == L_SUBFR && 0 <= d && 0 <= m && d + m < L_SUBFR
    requires cor == Wrap32(2 * Lag(h, d, m))
    ensures WrapMac(cor, h[m], h[m + d]) == Wrap32(2 * Lag(h, d, m + 1))
  {
    hide Wrap32, Product;
    WrapAdd(2 * Lag(h, d, m), 2 * Product(h[m], h[m + d]));
  }

  lemma EmptyLag(h: seq<Word16>, d: int)
    requires |h| == L_SUBFR && 0 <= d < L_SUBFR
    ensures Wrap32(2 * Lag(h, d, 0)) == 0
  {}

  lemma WrapAdd(x: int, y: int)
    ensures Wrap32(Wrap32(x) + y) == Wrap32(x + y)
  {
    var q := (x + 0x8000_0000) / 0x1_0000_0000;
    var w := Wrap32(x);
    var k := (w + y + 0x8000_0000) / 0x1_0000_0000;
    Wrap32Unique(x + y, Wrap32(w + y), q + k);
  }

  // The first diagonal starts with no word final, and no word has a distance of 5, 10, ...
  lemma NothingFilled(rr: seq<Word16>, h: seq<Word16>)
    requires |rr| == DIM_RR && |h| == L_SUBFR
    ensures Filled(rr, h, 0, 0)
  {}

  lemma NoSameTrackDiagonals(rr: seq<Word16>, h: seq<Word16>)
    requires Filled(rr, h, 1, 0)
    ensures Filled(rr, h, NB_POS, 0)
  {
    forall p | 0 <= p < DIM_RR && Final(p, NB_POS, 0) ensures Final(p, 1, 0) { SlotRange(p); }
  }

  // cor += 2 * h[x1] * h[x2], stored in rr[p], the word of tracks a and b at (row, col).
  method MacStore(h: array<Word16>, x1: int, x2: int, rr: array<Word16>, p: int, cor: Word32,
                  ghost a: int, ghost b: int, ghost row: int, ghost col: int)
    returns (sum: Word32)
    requires h.Length == L_SUBFR && h != rr && 0 <= x1 <= x2 < L_SUBFR
    requires Filled(rr[..], h[..], Rank(x2 - x1), x1) && rr.Length == DIM_RR
    requires cor == Wrap32(2 * Lag(h[..], x2 - x1, x1))
    requires 0 <= a <= b <= 4 && (a == b || a <= 2) && 0 <= row < NB_POS && 0 <= col < NB_POS
    requires p == Base(a, b) + col + (if a == b then 0 else NB_POS * row) && (a == b ==> row == col)
    requires x2 - x1 == Abs(STEP * row + a - STEP * col - b)
    requires x1 + 1 == L_SUBFR - Max(STEP * row + a, STEP * col + b)
    modifies rr
    ensures h[..] == old(h[..]) && sum == Wrap32(2 * Lag(h[..], x2 - x1, x1 + 1))
    ensures Filled(rr[..], h[..], Rank(x2 - x1), x1 + 1)
  {
    MacStep(h[..], x2 - x1, x1, cor);
    sum := WrapMac(cor, h[x1], h[x2]);
    if a == b { AtDiagonal(p, a, row); } else { AtBlock(p, a, b, row, col); }
    ghost var hs := h[..];
    Store(rr, p, sum, hs, x2 - x1, x1 + 1);
    assert h[..] == hs;
  }

  // The same without a store, for a pair on tracks 3 and 4.
  method MacSkip(h: array<Word16>, x1: int, x2: int, rr: array<Word16>, cor: Word32, ghost k: int, ghost u: int)
    returns (sum: Word32)
    requires h.Length == L_SUBFR && 0 <= x1 <= x2 < L_SUBFR
    requires Filled(rr[..], h[..], Rank(x2 - x1), x1)
    requires cor == Wrap32(2 * Lag(h[..], x2 - x1, x1))
    requires (x2 - x1 == STEP * k + 1 && x1 == STEP * u) || (x2 - x1 == STEP * k + 4 && x1 == STEP * u + 1)
    ensures sum == Wrap32(2 * Lag(h[..], x2 - x1, x1 + 1))
    ensures Filled(rr[..], h[..], Rank(x2 - x1), x1 + 1)
  {
    MacStep(h[..], x2 - x1, x1, cor);
    sum := WrapMac(cor, h[x1], h[x2]);
    Skip(rr[..], h[..], k, u, x2 - x1, x1 + 1);
  }

  // ----- Cor_h

  ghost predicate IsCorrelationMatrix(rr: seq<Word16>, h: seq<Word16>) {
    && |rr| == DIM_RR && |h| == L_SUBFR
    && forall p :: 0 <= p < DIM_RR ==> rr[p] == MatrixWord(h, p)
  }

  // High half of twice the correlation of the two positions of word p, modulo 2^32.
  ghost function MatrixWord(h: seq<Word16>, p: int): Word16
    requires |h| == L_SUBFR && 0 <= p < DIM_RR
  {
    SlotInverse(p);
    ExtractH(Wrap32(2 * Correlation(h, PosI(p), PosJ(p))))
  }

  lemma FilledIsCorrelation(rr: seq<Word16>, h: seq<Word16>)
    requires Filled(rr, h, NB_POS * STEP, 0)
    ensures IsCorrelationMatrix(rr, h)
  {
    forall p | 0 <= p < DIM_RR
      ensures rr[p] == MatrixWord(h, p)
    {
      SlotInverse(p);
      SlotRange(p);
      RunningIsDirect(h, PosI(p), PosJ(p), L_SUBFR);
      hide PosI, PosJ, Slot;
      assert Final(p, NB_POS * STEP, 0);
    }
  }

  // Scaling h for maximum precision.
  method ScaleResponse(H: array<Word16>) returns (h: array<Word16>)
    requires H.Length == L_SUBFR
    ensures fresh(h) && h[..] == Scaled(H[..])
  {
    var cor: Word32 := 0;
    for i := 0 to L_SUBFR
      invariant cor == Wrap32(2 * Lag(H[..], 0, i))
    {
      MacStep(H[..], 0, i, cor);
      cor := WrapMac(cor, H[i], H[i]);
    }
    h := new Word16[L_SUBFR];
    if Sub(ExtractH(cor), 32000) > 0 {
      for i := 0 to L_SUBFR
        invariant forall t :: 0 <= t < i ==> h[t] == FloorShift(H[t], 1)
      {
        h[i] := FloorShift(H[i], 1);
      }
    } else {
      var k := NormL(cor);
      NormalizedShift(cor);
      k := Shr(k, 1);
      assert TwoTo(1) == 2;
      for i := 0 to L_SUBFR
        invariant forall t :: 0 <= t < i ==> h[t] == Wrap16(Product(H[t], TwoTo(k)))
      {
        h[i] := Wrap16(Product(H[i], TwoTo(k)));
      }
    }
  }

  /** Cor_h.  The pointers p0..p4 of the source are indices into rr. */
  method ComputeCorrelations(H: array<Word16>, rr: array<Word16>)
    requires H.Length == L_SUBFR && rr.Length == DIM_RR && H != rr
    modifies rr
    ensures IsCorrelationMatrix(rr[..], Scaled(H[..]))
  {
    var h := ScaleResponse(H);
    ghost var hs := h[..];
    MainDiagonal(h, rr);
    FirstDiagonals(h, rr);
    SecondDiagonals(h, rr);
    ThirdDiagonals(h, rr);
    FourthDiagonals(h, rr);
    FilledIsCorrelation(rr[..], hs);
  }

  // rri0i0 .. rri4i4: track 4 first, from the last position down.
  method MainDiagonal(h: array<Word16>, rr: array<Word16>)
    requires h.Length == L_SUBFR && rr.Length == DIM_RR && h != rr
    modifies rr
    ensures Filled(rr[..], h[..], 8, 0)
  {
    hide Filled, Lag, Wrap32;
    ghost var hs := h[..];
    var cor: Word32 := 0;
    var p4, p3, p2, p1, p0 := 39, 31, 23, 15, 7;
    var x := 0;
    NothingFilled(rr[..], hs);
    EmptyLag(hs, 0);
    for i := 0 to NB_POS
      invariant h[..] == hs && x == 5 * i && cor == Wrap32(2 * Lag(hs, 0, x))
      invariant p4 == 39 - i && p3 == 31 - i && p2 == 23 - i && p1 == 15 - i && p0 == 7 - i
      invariant Filled(rr[..], hs, 0, x)
    {
      cor := MacStore(h, x, x, rr, p4, cor, 4, 4, 7 - i, 7 - i);
      cor := MacStore(h, x + 1, x + 1, rr, p3, cor, 3, 3, 7 - i, 7 - i);
      cor := MacStore(h, x + 2, x + 2, rr, p2, cor, 2, 2, 7 - i, 7 - i);
      cor := MacStore(h, x + 3, x + 3, rr, p1, cor, 1, 1, 7 - i, 7 - i);
      cor := MacStore(h, x + 4, x + 4, rr, p0, cor, 0, 0, 7 - i, 7 - i);
      p4, p3, p2, p1, p0 := p4 - 1, p3 - 1, p2 - 1, p1 - 1, p0 - 1;
      x := x + 5;
    }
    NextDiagonal(rr[..], hs, 0, 40);
    NoSameTrackDiagonals(rr[..], hs);
  }

  // Elements of rri2i3[], rri1i2[], rri0i1[] and rri0i4[].
  method FirstDiagonals(h: array<Word16>, rr: array<Word16>)
    requires h.Length == L_SUBFR && rr.Length == DIM_RR && h != rr
    requires Filled(rr[..], h[..], 8, 0)
    modifies rr
    ensures Filled(rr[..], h[..], 16, 0)
  {
    hide Filled, Lag, Wrap32;
    ghost var hs := h[..];
    var lFinSup, lFinInf, ldec, hf := MSIZE - 1, MSIZE - 2, NB_POS + 1, 1;
    for k := 0 to NB_POS
      invariant h[..] == hs && lFinSup == 63 - 8 * k && lFinInf == 62 - k && hf == 5 * k + 1
      invariant Filled(rr[..], hs, 8 + k, 0)
    {
      var p3, p2, p1, p0 := 488 + lFinSup, 296 + lFinSup, 40 + lFinSup, 232 + lFinInf;
      var cor: Word32, x1, x2 := 0, 0, hf;
      EmptyLag(hs, hf);
      for i := k + 1 to NB_POS
        invariant h[..] == hs && x1 == 5 * (i - k - 1) && x2 == x1 + hf && ldec == 9
        invariant p3 == 488 + 63 - 8 * k - 9 * (i - k - 1) && p2 == 296 + 63 - 8 * k - 9 * (i - k - 1)
            && p1 == 40 + 63 - 8 * k - 9 * (i - k - 1) && p0 == 232 + 62 - k - 9 * (i - k - 1)
        invariant cor == Wrap32(2 * Lag(hs, hf, x1)) && Filled(rr[..], hs, Rank(hf), x1)
      {
        cor := MacSkip(h, x1, x2, rr, cor, k, i - k - 1);
        cor := MacStore(h, x1 + 1, x2 + 1, rr, p3, cor, 2, 3, 8 - i, 8 + k - i);
        cor := MacStore(h, x1 + 2, x2 + 2, rr, p2, cor, 1, 2, 8 - i, 8 + k - i);
        cor := MacStore(h, x1 + 3, x2 + 3, rr, p1, cor, 0, 1, 8 - i, 8 + k - i);
        cor := MacStore(h, x1 + 4, x2 + 4, rr, p0, cor, 0, 4, 8 + k - i, 7 - i);
        p3, p2, p1, p0 := p3 - ldec, p2 - ldec, p1 - ldec, p0 - ldec;
        x1, x2 := x1 + 5, x2 + 5;
      }
      cor := MacSkip(h, x1, x2, rr, cor, k, 7 - k);
      cor := MacStore(h, x1 + 1, x2 + 1, rr, p3, cor, 2, 3, 0, k);
      cor := MacStore(h, x1 + 2, x2 + 2, rr, p2, cor, 1, 2, 0, k);
      cor := MacStore(h, x1 + 3, x2 + 3, rr, p1, cor, 0, 1, 0, k);
      NextDiagonal(rr[..], hs, hf, 40 - hf);
      lFinSup, lFinInf, hf := lFinSup - NB_POS, lFinInf - 1, hf + STEP;
    }
  }

  // Elements of rri2i4[], rri1i3[], rri0i2[], rri1i4[] and rri0i3[].
  method SecondDiagonals(h: array<Word16>, rr: array<Word16>)
    requires h.Length == L_SUBFR && rr.Length == DIM_RR && h != rr
    requires Filled(rr[..], h[..], 16, 0)
    modifies rr
    ensures Filled(rr[..], h[..], 24, 0)
  {
    hide Filled, Lag, Wrap32;
    ghost var hs := h[..];
    var lFinSup, lFinInf, ldec, hf := MSIZE - 1, MSIZE - 2, NB_POS + 1, 2;
    for k := 0 to NB_POS
      invariant h[..] == hs && lFinSup == 63 - 8 * k && lFinInf == 62 - k && hf == 5 * k + 2
      invariant Filled(rr[..], hs, 16 + k, 0)
    {
      var p4, p3, p2, p1, p0 := 552 + lFinSup, 360 + lFinSup, 104 + lFinSup, 424 + lFinInf, 168 + lFinInf;
      var cor: Word32, x1, x2 := 0, 0, hf;
      EmptyLag(hs, hf);
      for i := k + 1 to NB_POS
        invariant h[..] == hs && x1 == 5 * (i - k - 1) && x2 == x1 + hf && ldec == 9
        invariant p4 == 552 + 63 - 8 * k - 9 * (i - k - 1) && p3 == 360 + 63 - 8 * k - 9 * (i - k - 1)
            && p2 == 104 + 63 - 8 * k - 9 * (i - k - 1) && p1 == 424 + 62 - k - 9 * (i - k - 1)
            && p0 == 168 + 62 - k - 9 * (i - k - 1)
        invariant cor == Wrap32(2 * Lag(hs, hf, x1)) && Filled(rr[..], hs, Rank(hf), x1)
      {
        cor := MacStore(h, x1, x2, rr, p4, cor, 2, 4, 8 - i, 8 + k - i);
        cor := MacStore(h, x1 + 1, x2 + 1, rr, p3, cor, 1, 3, 8 - i, 8 + k - i);
        cor := MacStore(h, x1 + 2, x2 + 2, rr, p2, cor, 0, 2, 8 - i, 8 + k - i);
        cor := MacStore(h, x1 + 3, x2 + 3, rr, p1, cor, 1, 4, 8 + k - i, 7 - i);
        cor := MacStore(h, x1 + 4, x2 + 4, rr, p0, cor, 0, 3, 8 + k - i, 7 - i);
        p4, p3, p2, p1, p0 := p4 - ldec, p3 - ldec, p2 - ldec, p1 - ldec, p0 - ldec;
        x1, x2 := x1 + 5, x2 + 5;
      }
      cor := MacStore(h, x1, x2, rr, p4, cor, 2, 4, 0, k);
      cor := MacStore(h, x1 + 1, x2 + 1, rr, p3, cor, 1, 3, 0, k);
      cor := MacStore(h, x1 + 2, x2 + 2, rr, p2, cor, 0, 2, 0, k);
      NextDiagonal(rr[..], hs, hf, 40 - hf);
      lFinSup, lFinInf, hf := lFinSup - NB_POS, lFinInf - 1, hf + STEP;
    }
  }

  // Elements of rri1i4[], rri0i3[], rri2i4[], rri1i3[] and rri0i2[].
  method ThirdDiagonals(h: array<Word16>, rr: array<Word16>)
    requires h.Length == L_SUBFR && rr.Length == DIM_RR && h != rr
    requires Filled(rr[..], h[..], 24, 0)
    modifies rr
    ensures Filled(rr[..], h[..], 32, 0)
  {
    hide Filled, Lag, Wrap32;
    ghost var hs := h[..];
    var lFinSup, lFinInf, ldec, hf := MSIZE - 1, MSIZE - 2, NB_POS + 1, 3;
    for k := 0 to NB_POS
      invariant h[..] == hs && lFinSup == 63 - 8 * k && lFinInf == 62 - k && hf == 5 * k + 3
      invariant Filled(rr[..], hs, 24 + k, 0)
    {
      var p4, p3, p2, p1, p0 := 424 + lFinSup, 168 + lFinSup, 552 + lFinInf, 360 + lFinInf, 104 + lFinInf;
      var cor: Word32, x1, x2 := 0, 0, hf;
      EmptyLag(hs, hf);
      for i := k + 1 to NB_POS
        invariant h[..] == hs && x1 == 5 * (i - k - 1) && x2 == x1 + hf && ldec == 9
        invariant p4 == 424 + 63 - 8 * k - 9 * (i - k - 1) && p3 == 168 + 63 - 8 * k - 9 * (i - k - 1)
            && p2 == 552 + 62 - k - 9 * (i - k - 1) && p1 == 360 + 62 - k - 9 * (i - k - 1)
            && p0 == 104 + 62 - k - 9 * (i - k - 1)
        invariant cor == Wrap32(2 * Lag(hs, hf, x1)) && Filled(rr[..], hs, Rank(hf), x1)
      {
        cor := MacStore(h, x1, x2, rr, p4, cor, 1, 4, 8 - i, 8 + k - i);
        cor := MacStore(h, x1 + 1, x2 + 1, rr, p3, cor, 0, 3, 8 - i, 8 + k - i);
        cor := MacStore(h, x1 + 2, x2 + 2, rr, p2, cor, 2, 4, 8 + k - i, 7 - i);
        cor := MacStore(h, x1 + 3, x2 + 3, rr, p1, cor, 1, 3, 8 + k - i, 7 - i);
        cor := MacStore(h, x1 + 4, x2 + 4, rr, p0, cor, 0, 2, 8 + k - i, 7 - i);
        p4, p3, p2, p1, p0 := p4 - ldec, p3 - ldec, p2 - ldec, p1 - ldec, p0 - ldec;
        x1, x2 := x1 + 5, x2 + 5;
      }
      cor := MacStore(h, x1, x2, rr, p4, cor, 1, 4, 0, k);
      cor := MacStore(h, x1 + 1, x2 + 1, rr, p3, cor, 0, 3, 0, k);
      NextDiagonal(rr[..], hs, hf, 40 - hf);
      lFinSup, lFinInf, hf := lFinSup - NB_POS, lFinInf - 1, hf + STEP;
    }
  }

  // Elements of rri0i4[], rri2i3[], rri1i2[] and rri0i1[].
  method FourthDiagonals(h: array<Word16>, rr: array<Word16>)
    requires h.Length == L_SUBFR && rr.Length == DIM_RR && h != rr
    requires Filled(rr[..], h[..], 32, 0)
    modifies rr
    ensures Filled(rr[..], h[..], 40, 0)
  {
    hide Filled, Lag, Wrap32;
    ghost var hs := h[..];
    var lFinSup, lFinInf, ldec, hf := MSIZE - 1, MSIZE - 2, NB_POS + 1, 4;
    for k := 0 to NB_POS
      invariant h[..] == hs && lFinSup == 63 - 8 * k && lFinInf == 62 - k && hf == 5 * k + 4
      invariant Filled(rr[..], hs, 32 + k, 0)
    {
      var p3, p2, p1, p0 := 232 + lFinSup, 488 + lFinInf, 296 + lFinInf, 40 + lFinInf;
      var cor: Word32, x1, x2 := 0, 0, hf;
      EmptyLag(hs, hf);
      for i := k + 1 to NB_POS
        invariant h[..] == hs && x1 == 5 * (i - k - 1) && x2 == x1 + hf && ldec == 9
        invariant p3 == 232 + 63 - 8 * k - 9 * (i - k - 1) && p2 == 488 + 62 - k - 9 * (i - k - 1)
            && p1 == 296 + 62 - k - 9 * (i - k - 1) && p0 == 40 + 62 - k - 9 * (i - k - 1)
        invariant cor == Wrap32(2 * Lag(hs, hf, x1)) && Filled(rr[..], hs, Rank(hf), x1)
      {
        cor := MacStore(h, x1, x2, rr, p3, cor, 0, 4, 8 - i, 8 + k - i);
        cor := MacSkip(h, x1 + 1, x2 + 1, rr, cor, k, i - k - 1);
        cor := MacStore(h, x1 + 2, x2 + 2, rr, p2, cor, 2, 3, 8 + k - i, 7 - i);
        cor := MacStore(h, x1 + 3, x2 + 3, rr, p1, cor, 1, 2, 8 + k - i, 7 - i);
        cor := MacStore(h, x1 + 4, x2 + 4, rr, p0, cor, 0, 1, 8 + k - i, 7 - i);
        p3, p2, p1, p0 := p3 - ldec, p2 - ldec, p1 - ldec, p0 - ldec;
        x1, x2 := x1 + 5, x2 + 5;
      }
      cor := MacStore(h, x1, x2, rr, p3, cor, 0, 4, 0, k);
      NextDiagonal(rr[..], hs, hf, 40 - hf);
      lFinSup, lFinInf, hf := lFinSup - NB_POS, lFinInf - 1, hf + STEP;
    }
  }

  // ----- No sum overflows when the energy of the response fits

  ghost function Squares(h: seq<Word16>, lo: int, hi: int): int
    requires 0 <= lo <= hi <= |h|
    decreases hi - lo
  {
    if lo == hi then 0 else Squares(h, lo, hi - 1) + Product(h[hi - 1], h[hi - 1])
  }

  lemma {:induction false} SquaresMonotone(h: seq<Word16>, lo: int, hi: int, lo': int, hi': int)
    requires 0 <= lo' <= lo <= hi <= hi' <= |h|
    ensures 0 <= Squares(h, lo, hi) <= Squares(h, lo', hi')
    decreases hi' - lo'
  {
    if hi < hi' {
      SquaresMonotone(h, lo, hi, lo', hi' - 1);
    } else if lo < hi {
      SquaresMonotone(h, lo, hi - 1, lo', hi' - 1);
    } else if lo' < hi' {
      SquaresMonotone(h, lo', lo', lo', hi' - 1);
    }
  }

  lemma {:induction false} EnergyIsSquares(h: seq<Word16>, m: int)
    requires 0 <= m <= |h|
    ensures Lag(h, 0, m) == Squares(h, 0, m)
  {
    if m > 0 { EnergyIsSquares(h, m - 1); }
  }

  lemma {:induction false} LagBound(h: seq<Word16>, d: int, m: int)
    requires 0 <= d && 0 <= m && d + m <= |h|
    ensures 2 * Abs(Lag(h, d, m)) <= Squares(h, 0, m) + Squares(h, d, d + m)
    decreases m
  {
    if m > 0 {
      LagBound(h, d, m - 1);
      TwiceProduct(h[m - 1], h[m - 1 + d]);
    }
  }

  lemma TwiceProduct(x: int, y: int)
    ensures 2 * Abs(Product(x, y)) <= Product(x, x) + Product(y, y)
  {
    assert (x - y) * (x - y) == x * x - 2 * (x * y) + y * y;
    assert (x + y) * (x + y) == x * x + 2 * (x * y) + y * y;
    SquareSign(x - y);
    SquareSign(x + y);
  }

  lemma SquareSign(x: int)
    ensures 0 <= x * x == Product(x, x)
  {}

  // No partial sum of any diagonal leaves the 32-bit range.
  lemma PartialSumFits(h: seq<Word16>, d: int, m: int)
    requires 0 <= d && 0 <= m && d + m <= |h| && 2 * Energy(h) <= MAX_32
    ensures MIN_32 < 2 * Lag(h, d, m) <= MAX_32
  {
    LagBound(h, d, m);
    EnergyIsSquares(h, |h|);
    SquaresMonotone(h, 0, m, 0, |h|);
    SquaresMonotone(h, d, d + m, 0, |h|);
  }

  // h is H halved (rounding down), or H shifted left by k with no bit lost.
  ghost predicate ExactScaling(H: seq<Word16>, h: seq<Word16>, k: int) {
    && |h| == |H|
    && forall i :: 0 <= i < |H| ==> h[i] as int == if k < 0 then H[i] / 2 else Product(H[i], TwoTo(k))
  }

  /** If twice the energy of H fits 32 bits, the scaling is exact and twice the energy of
      the result fits again; after a left shift it is at least a quarter of full scale. */
  lemma ScalingIsExact(H: seq<Word16>) returns (k: int)
    requires |H| == L_SUBFR && 2 * Energy(H) <= MAX_32
    ensures ExactScaling(H, Scaled(H), k) && 2 * Energy(Scaled(H)) <= MAX_32
    ensures k >= 0 && Energy(H) > 0 ==> 2 * Energy(Scaled(H)) >= 0x2000_0000
  {
    EnergyNonNegative(H);
    var cor: Word32 := 2 * Energy(H);
    ScaledCases(H, cor);
    hide Scaled, Energy, ScaleRight, ScaleLeft, ExactScaling, NormL;
    if ExtractH(cor) > 32000 {
      k := -1;
      HalvingIsExact(H);
    } else {
      k := NormL(cor) / 2;
      ShiftIsExact(H, cor, k);
    }
  }

  lemma ShiftIsExact(H: seq<Word16>, cor: Word32, k: nat)
    requires |H| == L_SUBFR && cor == 2 * Energy(H) && k == NormL(cor) / 2
    ensures ExactScaling(H, ScaleLeft(H, k), k) && 2 * Energy(ScaleLeft(H, k)) <= MAX_32
    ensures Energy(H) > 0 ==> 2 * Energy(ScaleLeft(H, k)) >= 0x2000_0000
  {
    LeftShiftFits(H, cor, k);
    ShiftedEnergy(H, k, |H|);
    DoubledProduct(Energy(H), TwoTo(2 * k), cor, Energy(ScaleLeft(H, k)));
    LeftShiftExact(H, k);
  }

  lemma LeftShiftExact(H: seq<Word16>, k: nat)
    requires forall i :: 0 <= i < |H| ==> -0x8000 < Product(H[i], TwoTo(k)) < 0x8000
    ensures ExactScaling(H, ScaleLeft(H, k), k)
  {
    hide Product, TwoTo;
  }

  lemma DoubledProduct(e: int, d: int, cor: int, e': int)
    requires cor == 2 * e && e' == e * d
    ensures 2 * e' == cor * d
  {}

  lemma HalvingIsExact(H: seq<Word16>)
    ensures ExactScaling(H, ScaleRight(H), -1) && Energy(ScaleRight(H)) <= Energy(H)
  {
    assert TwoTo(1) == 2;
    HalvedEnergy(H, |H|);
  }

  lemma ScaledCases(H: seq<Word16>, cor: Word32)
    requires cor == 2 * Energy(H)
    ensures Scaled(H) == if ExtractH(cor) > 32000 then ScaleRight(H) else ScaleLeft(H, NormL(cor) / 2)
  {
    Wrap32Unique(cor, cor, 0);
    hide Wrap32, ScaleRight, ScaleLeft, NormL, Energy;
  }

  lemma EnergyNonNegative(h: seq<Word16>)
    ensures Energy(h) >= 0
  {
    EnergyIsSquares(h, |h|);
    SquaresMonotone(h, 0, 0, 0, |h|);
  }

  lemma {:induction false} HalvedEnergy(H: seq<Word16>, m: int)
    requires 0 <= m <= |H|
    ensures Lag(ScaleRight(H), 0, m) <= Lag(H, 0, m)
  {
    if m > 0 {
      HalvedEnergy(H, m - 1);
      var x: int := H[m - 1];
      var y := FloorShift(x, 1);
      if x >= 0 {
        MulMono(y, x, y);
        MulMono(y, x, x);
      } else {
        MulMono(-y, -x, -y);
        MulMono(-y, -x, -x);
        NegatedSquare(x);
        NegatedSquare(y);
      }
      assert ScaleRight(H)[m - 1] == y && ScaleRight(H)[m - 1 + 0] == y;
    }
  }

  lemma NegatedSquare(x: int)
    ensures (-x) * (-x) == Product(x, x)
  {}

  // Shifting by half the normalisation shift keeps every sample within 16 bits.
  lemma LeftShiftFits(H: seq<Word16>, cor: Word32, k: nat)
    requires |H| == L_SUBFR && cor == 2 * Energy(H) && k == NormL(cor) / 2
    ensures forall i :: 0 <= i < |H| ==> -0x8000 < Product(H[i], TwoTo(k)) < 0x8000
    ensures cor * TwoTo(2 * k) <= MAX_32 && (cor > 0 ==> cor * TwoTo(2 * k) >= 0x2000_0000)
  {
    EnergyNonNegative(H);
    NormalizedShift(cor);
    var n := NormL(cor);
    if cor > 0 {
      assert cor * TwoTo(n) < 0x8000_0000;
      if n % 2 == 1 { assert TwoTo(n) == 2 * TwoTo(2 * k); HalfProductBound(cor, TwoTo(2 * k)); }
    } else {
      assert k == 0;
    }
    forall i | 0 <= i < |H| ensures -0x8000 < Product(H[i], TwoTo(k)) < 0x8000 {
      OneSquare(H, i);
      TwoToSum(k, k);
      ShiftedSample(H[i], cor, TwoTo(k), TwoTo(2 * k));
    }
  }

  lemma HalfProductBound(cor: int, d: int)
    requires 0 < cor && 0x4000_0000 <= cor * (2 * d) <= MAX_32
    ensures 0x2000_0000 <= cor * d <= MAX_32
  {
    assert cor * (2 * d) == 2 * (cor * d);
  }

  lemma OneSquare(h: seq<Word16>, i: int)
    requires 0 <= i < |h|
    ensures 2 * Product(h[i], h[i]) <= 2 * Energy(h)
  {
    EnergyIsSquares(h, |h|);
    SquaresMonotone(h, i, i + 1, 0, |h|);
    assert Squares(h, i, i + 1) == Squares(h, i, i) + Product(h[i], h[i]);
  }

  lemma ShiftedSample(x: int, cor: int, d: int, dd: int)
    requires d >= 1 && dd == d * d && 2 * Product(x, x) <= cor && cor * dd <= MAX_32
    ensures -0x8000 < Product(x, d) < 0x8000
  {
    var y := x * d;
    MulMono(2 * Product(x, x), cor, dd);
    assert y * y == (x * x) * (d * d) by { SquareOfProduct(x, d); }
    assert 2 * (y * y) == (2 * Product(x, x)) * dd;
    if y >= 0x8000 { MulMono(0x8000, y, y); MulMono(0x8000, y, 0x8000); assert false; }
    if y <= -0x8000 { MulMono(0x8000, -y, -y); MulMono(0x8000, -y, 0x8000); NegatedSquare(y); assert false; }
  }

  lemma SquareOfProduct(x: int, d: int)
    ensures (x * d) * (x * d) == (x * x) * (d * d)
  {
    calc {
      (x * d) * (x * d);
      x * (d * (x * d));
      x * (x * (d * d));
      (x * x) * (d * d);
    }
  }

  lemma {:induction false} ShiftedEnergy(H: seq<Word16>, k: nat, m: int)
    requires 0 <= m <= |H|
    requires forall i :: 0 <= i < |H| ==> -0x8000 < Product(H[i], TwoTo(k)) < 0x8000
    ensures Lag(ScaleLeft(H, k), 0, m) == Lag(H, 0, m) * TwoTo(2 * k)
  {
    if m > 0 {
      ShiftedEnergy(H, k, m - 1);
      var x := H[m - 1];
      TwoToSum(k, k);
      SquareOfProduct(x, TwoTo(k));
      assert ScaleLeft(H, k)[m - 1] == Product(x, TwoTo(k));
      DistributeRight(Lag(H, 0, m - 1), Product(x, x), TwoTo(2 * k));
    }
  }

  lemma DistributeRight(a: int, b: int, c: int)
    ensures (a + b) * c == a * c + b * c
  {}

  /** Then every word is the exact high half of twice the direct correlation of its two
      positions, and no running sum on the way there wrapped. */
  lemma MatrixIsExact(rr: seq<Word16>, H: seq<Word16>, i: int, j: int)
    requires |H| == L_SUBFR && 2 * Energy(H) <= MAX_32
    requires IsCorrelationMatrix(rr, Scaled(H)) && IsPair(i, j)
    ensures 0 <= Slot(i, j) < DIM_RR
    ensures rr[Slot(i, j)] as int == (2 * Correlation(Scaled(H), i, j)) / 0x1_0000
    ensures forall d, m :: 0 <= d && 0 <= m && d + m <= L_SUBFR ==> MIN_32 < 2 * Lag(Scaled(H), d, m) <= MAX_32
  {
    var h := Scaled(H);
    var _ := ScalingIsExact(H);
    hide Scaled;
    forall d, m | 0 <= d && 0 <= m && d + m <= L_SUBFR
      ensures MIN_32 < 2 * Lag(h, d, m) <= MAX_32
    {
      PartialSumFits(h, d, m);
    }
    InverseSlot(i, j);
    ExactWord(h, i, j);
  }

  lemma ExactWord(h: seq<Word16>, i: int, j: int)
    requires |h| == L_SUBFR && 2 * Energy(h) <= MAX_32
    requires 0 <= i < L_SUBFR && 0 <= j < L_SUBFR
    ensures Wrap32(2 * Correlation(h, i, j)) == 2 * Correlation(h, i, j)
  {
    RunningIsDirect(h, i, j, L_SUBFR);
    PartialSumFits(h, Abs(i - j), L_SUBFR - Max(i, j));
  }
}
