/** Cor_h_X (COR_FUNC.C): correlation of the target with the impulse response, scaled
    so that its largest magnitude has 13 bits. */
module CorFunc {
  import opened BasicOp
  import opened Ld8a

  // The saturating sum of x[j] * h[j - i] for j from i up to n - 1.
  function Backward(x: seq<Word16>, h: seq<Word16>, i: nat, n: nat): Word32
    requires |x| == L_SUBFR && |h| == L_SUBFR && i <= n <= L_SUBFR
    decreases n
  {
    if n == i then 0 else LMac(Backward(x, h, i, n - 1), x[n - 1], h[n - 1 - i])
  }

  function Peak(x: seq<Word16>, h: seq<Word16>, k: nat): Word32
    requires |x| == L_SUBFR && |h| == L_SUBFR && k <= L_SUBFR
  {
    if k == 0 then 0 else Max(Peak(x, h, k - 1), LAbs(Backward(x, h, k - 1, L_SUBFR)))
  }

  // The right shift that leaves a maximum of 13 bits; at least 2.
  function DownShift(max: Word32): (j: int)
    ensures j >= 2
  {
    18 - (if NormL(max) > 16 then 16 else NormL(max))
  }

  function Correlations(x: seq<Word16>, h: seq<Word16>): (d: seq<Word16>)
    requires |x| == L_SUBFR && |h| == L_SUBFR
    ensures |d| == L_SUBFR
  {
    var j := DownShift(Peak(x, h, L_SUBFR));
    seq(L_SUBFR, i requires 0 <= i < L_SUBFR => ExtractL(LShr(Backward(x, h, i, L_SUBFR), j)))
  }

  method CorHX(h: array<Word16>, x: array<Word16>, d: array<Word16>)
    requires h.Length == L_SUBFR && x.Length == L_SUBFR && d.Length == L_SUBFR && d != h && d != x
    modifies d
    ensures d[..] == Correlations(x[..], h[..])
  {
    hide LMac, LShr, NormL;
    ghost var hs, xs := h[..], x[..];
    var y32 := new Word32[L_SUBFR];
    var max: Word32 := 0;
    for i := 0 to L_SUBFR
      invariant forall k :: 0 <= k < i ==> y32[k] == Backward(xs, hs, k, L_SUBFR)
      invariant max == Peak(xs, hs, i) && max >= 0
    {
      var s: Word32 := 0;
      for j := i to L_SUBFR
        invariant s == Backward(xs, hs, i, j)
      {
        s := LMac(s, x[j], h[j - i]);
      }
      y32[i] := s;
      s := LAbs(s);
      if LSub(s, max) > 0 { max := s; }
    }
    var j: int := NormL(max);
    if j > 16 { j := 16; }
    j := 18 - j;
    for i := 0 to L_SUBFR
      invariant forall k :: 0 <= k < L_SUBFR ==> y32[k] == Backward(xs, hs, k, L_SUBFR)
      invariant forall k :: 0 <= k < i ==> d[k] == ExtractL(LShr(y32[k], j))
    {
      d[i] := ExtractL(LShr(y32[i], j));
    }
  }

  lemma {:induction false} PeakBounds(x: seq<Word16>, h: seq<Word16>, k: nat, i: nat)
    requires |x| == L_SUBFR && |h| == L_SUBFR && i < k <= L_SUBFR
    ensures LAbs(Backward(x, h, i, L_SUBFR)) <= Peak(x, h, k)
  {
    if i < k - 1 { PeakBounds(x, h, k - 1, i); }
  }

  lemma {:induction false} PeakAttained(x: seq<Word16>, h: seq<Word16>, k: nat) returns (i: nat)
    requires |x| == L_SUBFR && |h| == L_SUBFR && 0 < k <= L_SUBFR
    ensures i < k && LAbs(Backward(x, h, i, L_SUBFR)) == Peak(x, h, k)
  {
    hide Backward;
    if k == 1 || LAbs(Backward(x, h, k - 1, L_SUBFR)) >= Peak(x, h, k - 1) {
      i := k - 1;
    } else {
      i := PeakAttained(x, h, k - 1);
    }
  }

  lemma {:induction false} PeakNonNegative(x: seq<Word16>, h: seq<Word16>, k: nat)
    requires |x| == L_SUBFR && |h| == L_SUBFR && k <= L_SUBFR
    ensures Peak(x, h, k) >= 0
  {}

  // A word of magnitude below 2^n * m fits m after a right shift by n.
  lemma ShiftFits(y: int, n: nat, m: int)
    requires -m * TwoTo(n) <= y < m * TwoTo(n)
    ensures -m <= FloorShift(y, n) < m
  {
    var d := TwoTo(n);
    assert d * -m == -m * d;
    DivUnique(-m * d, d, -m);
    DivMono(-m * d, y, d);
    DivBounds(y, d);
    if y / d >= m { MulMono(m, y / d, d); assert false; }
  }

  // The shift chosen for a maximum leaves less than 2^13, and at least 2^12 unless the maximum is tiny.
  lemma DownShiftFits(max: Word32)
    requires max >= 0
    ensures 2 <= DownShift(max) <= 18
    ensures max < 0x2000 * TwoTo(DownShift(max))
    ensures max >= 0x4000 ==> max >= 0x1000 * TwoTo(DownShift(max))
  {
    NormalizedShift(max);
    var n, j := NormL(max), DownShift(max);
    TwoToSum(8, 8);
    assert TwoTo(8) == 0x100;
    if max == 0 {
      TwoToLarge(0);
    } else if n <= 16 {
      TwoToSum(n, j);
      assert TwoTo(18) == 4 * TwoTo(16) by { assert TwoTo(18) == 2 * TwoTo(17); }
      ScaledBounds(max, TwoTo(n), TwoTo(j));
    } else {
      assert TwoTo(2) == 4;
      TwoToMono(17, n);
      assert TwoTo(17) == 2 * TwoTo(16);
      MulMono(TwoTo(17), TwoTo(n), max);
    }
  }

  lemma ScaledBounds(max: int, d: int, e: int)
    requires d * e == 0x4_0000 && d > 0 && e > 0 && 0x4000_0000 <= max * d < 0x8000_0000
    ensures 0x1000 * e <= max < 0x2000 * e
  {
    assert (0x2000 * e) * d == 0x2000 * (d * e) && (0x1000 * e) * d == 0x1000 * (d * e);
    if max < 0x1000 * e {
      StrictScale(max, 0x1000 * e, d);
      assert false;
    }
    if max >= 0x2000 * e {
      MulMono(0x2000 * e, max, d);
      assert false;
    }
  }

  lemma StrictScale(max: int, e: int, d: int)
    requires max < e && d > 0
    ensures max * d < e * d
  {}

  /** The output is the floor of the correlations scaled by a common power of two, no value
      needs more than 13 bits and a sign, and unless the correlations are tiny the largest
      magnitude really has 13 bits. */
  lemma ThirteenBits(x: seq<Word16>, h: seq<Word16>)
    requires |x| == L_SUBFR && |h| == L_SUBFR
    ensures var d, j := Correlations(x, h), DownShift(Peak(x, h, L_SUBFR));
      && (forall i :: 0 <= i < L_SUBFR ==> d[i] == FloorShift(Backward(x, h, i, L_SUBFR), j))
      && (forall i :: 0 <= i < L_SUBFR ==> -0x2000 <= d[i] < 0x2000)
      && (Peak(x, h, L_SUBFR) >= 0x4000 ==> exists i :: 0 <= i < L_SUBFR && (d[i] >= 0x1000 || d[i] < -0xfff))
  {
    hide LMac, NormL, DownShift;
    var max := Peak(x, h, L_SUBFR);
    PeakNonNegative(x, h, L_SUBFR);
    DownShiftFits(max);
    var j := DownShift(max);
    var d := Correlations(x, h);
    forall i | 0 <= i < L_SUBFR
      ensures d[i] == FloorShift(Backward(x, h, i, L_SUBFR), j) && -0x2000 <= d[i] < 0x2000
    {
      var y := Backward(x, h, i, L_SUBFR);
      PeakBounds(x, h, L_SUBFR, i);
      ScaledWord(y, max, j);
    }
    if max >= 0x4000 {
      var i := PeakAttained(x, h, L_SUBFR);
      LargeWord(Backward(x, h, i, L_SUBFR), max, j);
      assert d[i] >= 0x1000 || d[i] < -0xfff;
    }
  }

  lemma ScaledWord(y: Word32, max: Word32, j: nat)
    requires LAbs(y) <= max < 0x2000 * TwoTo(j)
    ensures -0x2000 <= FloorShift(y, j) < 0x2000 && ExtractL(LShr(y, j)) == FloorShift(y, j)
  {
    assert Abs(y) <= 0x2000 * TwoTo(j);
    ShiftFits(y, j, 0x2000);
  }

  lemma LargeWord(y: Word32, max: Word32, j: nat)
    requires LAbs(y) == max && max >= 0x1000 * TwoTo(j)
    ensures FloorShift(y, j) >= 0x1000 || FloorShift(y, j) < -0xfff
  {
    var d := TwoTo(j);
    DivBounds(y, d);
    var q := y / d;
    if y >= 0 {
      if q < 0x1000 { MulMono(q, 0xfff, d); assert false; }
    } else {
      if q >= -0xfff { MulMono(-0xfff, q, d); assert false; }
    }
  }
}
