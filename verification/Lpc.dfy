/** Autocorr (LPC.C): windowing, scaling until the energy fits 32 bits, and the normalised
    autocorrelations in split double precision. */
module Lpc {
  import opened BasicOp
  import opened CorH
  import opened Oper32b

  const L_WINDOW := 240

  // ----- The multiply-accumulate unit and its sticky flag

  class Alu {
    var Overflow: bool

    constructor ()
      ensures !Overflow
    {
      Overflow := false;
    }

    // L_mac: it can set the flag but never clears it.
    method Mac(acc: Word32, x: Word16, y: Word16) returns (r: Word32)
      modifies this
      ensures r == LMac(acc, x, y)
      ensures Overflow == (old(Overflow) || Product(x, y) == 0x4000_0000 || LMult(x, y) as int + acc != r)
    {
      hide LMult, LAdd;
      var p := LMult(x, y);
      if Product(x, y) == 0x4000_0000 {
        Overflow := true;
      }
      r := LAdd(acc, p);
      var exact: int := acc as int + p;
      if exact != r {
        Overflow := true;
      }
    }
  }

  // ----- Scaling

  function Windowed(x: seq<Word16>, window: seq<Word16>): seq<Word16>
    requires |x| == |window|
  {
    seq(|x|, i requires 0 <= i < |x| => MultR(x[i], window[i]))
  }

  function Quarter(x: Word16): Word16 { Shr(x, 2) }

  function Quartered(y: seq<Word16>): seq<Word16> {
    seq(|y|, i requires 0 <= i < |y| => Quarter(y[i]))
  }

  ghost predicate Fits(y: seq<Word16>) { 1 + 2 * Energy(y) <= MAX_32 }

  // The first of the signal, its quarter and its sixteenth whose energy fits.
  ghost function Scale(y: seq<Word16>): seq<Word16> {
    if Fits(y) then y else if Fits(Quartered(y)) then Quartered(y) else Quartered(Quartered(y))
  }

  lemma {:induction false} EnergyBound(y: seq<Word16>, b: int, m: nat)
    requires b >= 0 && m <= |y| && forall i :: 0 <= i < |y| ==> -b <= y[i] as int <= b
    ensures Lag(y, 0, m) <= m * (b * b)
  {
    if m > 0 {
      EnergyBound(y, b, m - 1);
      SquareBound(y[m - 1], b);
      assert m * (b * b) == (m - 1) * (b * b) + b * b;
    }
  }

  lemma SquareBound(x: int, b: int)
    requires -b <= x <= b
    ensures Product(x, x) <= b * b
  {
    MulMono(Abs(x), b, Abs(x));
    MulMono(Abs(x), b, b);
  }

  lemma QuarterBound(x: Word16, b: int)
    requires -4 * b <= x as int <= 4 * b
    ensures -b <= Quarter(x) as int <= b
  {
    assert TwoTo(2) == 4;
    assert FloorShift(x, 2) == x / 4;
  }

  /** Two quarterings always suffice: the loop runs at most three times. */
  lemma SixteenthFits(y: seq<Word16>)
    requires |y| == L_WINDOW
    ensures Fits(Scale(y))
  {
    hide Quarter, Lag;
    var z := Quartered(y);
    var w := Quartered(z);
    forall i | 0 <= i < |w| ensures -2048 <= w[i] as int <= 2048 {
      QuarterBound(y[i], 8192);
      QuarterBound(z[i], 2048);
    }
    EnergyBound(w, 2048, |w|);
  }

  lemma EnergyGrows(y: seq<Word16>, i: int)
    requires 0 <= i < |y|
    ensures Lag(y, 0, i) >= 0 && Product(y[i], y[i]) >= 0
    ensures Lag(y, 0, i + 1) == Lag(y, 0, i) + Product(y[i], y[i])
  {
    EnergyIsSquares(y, i);
    SquaresMonotone(y, 0, 0, 0, i);
    SquareSign(y[i]);
  }

  // One pass: the flag tells exactly whether 1 + 2 * sum y^2 fits.
  method Power(alu: Alu, y: array<Word16>) returns (sum: Word32)
    requires !alu.Overflow
    modifies alu
    ensures alu.Overflow == !Fits(y[..])
    ensures Fits(y[..]) ==> sum == 1 + 2 * Energy(y[..])
  {
    hide LMac, Product, Lag;
    ghost var ys := y[..];
    LagEmpty(ys, 0);
    sum := 1;
    for i := 0 to y.Length
      invariant alu.Overflow == (1 + 2 * Lag(ys, 0, i) > MAX_32)
      invariant !alu.Overflow ==> sum == 1 + 2 * Lag(ys, 0, i)
    {
      EnergyGrows(ys, i);
      MacIsExact(sum, ys[i], ys[i]);
      sum := alu.Mac(sum, y[i], y[i]);
    }
  }

  lemma LagEmpty(y: seq<Word16>, d: nat)
    requires d <= |y|
    ensures Lag(y, d, 0) == 0
  {}

  lemma MacIsExact(acc: Word32, x: Word16, y: Word16)
    ensures Product(x, y) != 0x4000_0000 ==> LMult(x, y) == 2 * Product(x, y)
    ensures LMac(acc, x, y) == Clamp32(acc + LMult(x, y))
    ensures Product(x, y) <= 0x4000_0000
  {
    ProductBound(x, y);
  }

  method QuarterAll(y: array<Word16>)
    modifies y
    ensures y[..] == Quartered(old(y[..]))
  {
    hide Quarter;
    for i := 0 to y.Length
      invariant forall k :: 0 <= k < i ==> y[k] == Quarter(old(y[k]))
      invariant forall k :: i <= k < y.Length ==> y[k] == old(y[k])
    {
      y[i] := Quarter(y[i]);
    }
  }

  method ScaleSignal(alu: Alu, y: array<Word16>) returns (sum: Word32)
    requires y.Length == L_WINDOW
    modifies alu, y
    ensures !alu.Overflow && y[..] == Scale(old(y[..])) && Fits(y[..])
    ensures sum == 1 + 2 * Energy(y[..])
  {
    hide Fits, Quartered, Energy;
    ghost var start := y[..];
    SixteenthFits(start);
    ghost var passes := 0;
    var again := true;
    sum := 0;
    while again
      invariant 0 <= passes <= 3
      invariant !again ==> !alu.Overflow && y[..] == Scale(start) && Fits(y[..]) && sum == 1 + 2 * Energy(y[..])
      invariant again && passes == 0 ==> y[..] == start
      invariant again && passes == 1 ==> y[..] == Quartered(start) && !Fits(start)
      invariant again && passes == 2 ==> y[..] == Quartered(Quartered(start)) && !Fits(start) && !Fits(Quartered(start))
      invariant again ==> passes < 3
      decreases again, 3 - passes
    {
      alu.Overflow := false;
      sum := Power(alu, y);
      if alu.Overflow {
        QuarterAll(y);
      }
      again := alu.Overflow;
      passes := passes + 1;
    }
  }

  // ----- Normalised autocorrelations

  // 1 + 2 * sum y^2 at full scale.
  ghost function FullPower(y: seq<Word16>): int { Product(1 + 2 * Energy(y), Gain(y)) }

  // The factor that brings it there (1 where the energy does not fit).
  ghost function Gain(y: seq<Word16>): nat
  {
    if Fits(y) && Energy(y) >= 0 then TwoTo(NormL(1 + 2 * Energy(y))) else 1
  }

  // The exact lag k of the scaled signal at the same scale.
  ghost function FullLag(y: seq<Word16>, k: nat): int
    requires k <= |y|
  {
    Product(2 * Lag(y, k, |y| - k), Gain(y))
  }

  lemma LagWithinEnergy(y: seq<Word16>, k: nat, m: nat)
    requires k + m <= |y|
    ensures Abs(Lag(y, k, m)) <= Energy(y)
  {
    LagBound(y, k, m);
    EnergyIsSquares(y, |y|);
    SquaresMonotone(y, 0, m, 0, |y|);
    SquaresMonotone(y, k, k + m, 0, |y|);
  }

  // No lag exceeds the power, at any scale.
  lemma ScaledLagBound(e: int, l: int, g: nat)
    requires g >= 1 && Abs(l) <= e
    ensures Abs(Product(2 * l, g)) <= Product(1 + 2 * e, g) - g
    ensures Product(2 * l, g) % 2 == 0
  {
    MulMono(2 * l, 2 * e, g);
    MulMono(-2 * l, 2 * e, g);
    assert 2 * l * g == 2 * (l * g) && -2 * l * g == -(2 * l * g);
    assert (1 + 2 * e) * g == g + 2 * e * g;
  }

  lemma FullPowerRange(y: seq<Word16>)
    requires Fits(y)
    ensures 0x4000_0000 <= FullPower(y) <= MAX_32 && Gain(y) >= 1
    ensures Energy(y) >= 0 && LShl(1 + 2 * Energy(y), NormL(1 + 2 * Energy(y))) == FullPower(y)
  {
    EnergyNonNegative(y);
    hide Lag, LShr, NormL, TwoTo;
    NormalizedShift(1 + 2 * Energy(y));
  }

  /** Neither a lag sum nor its normalising shift saturates, and no lag exceeds r[0]. */
  lemma LagIsExact(y: seq<Word16>, k: nat)
    requires Fits(y) && k <= |y|
    ensures MIN_32 < 2 * Lag(y, k, |y| - k) <= MAX_32 && Energy(y) >= 0
    ensures LShl(2 * Lag(y, k, |y| - k), NormL(1 + 2 * Energy(y))) == FullLag(y, k)
    ensures Abs(FullLag(y, k)) <= FullPower(y) - FullPower(y) % 2 && FullLag(y, k) % 2 == 0
  {
    FullPowerRange(y);
    LagWithinEnergy(y, k, |y| - k);
    ScaledLagBound(Energy(y), Lag(y, k, |y| - k), Gain(y));
    ShiftOfProduct(2 * Lag(y, k, |y| - k), NormL(1 + 2 * Energy(y)));
  }

  lemma ShiftOfProduct(x: Word32, n: nat)
    requires MIN_32 <= Product(x, TwoTo(n)) <= MAX_32
    ensures LShl(x, n) == Product(x, TwoTo(n))
  {
    if n == 0 { assert FloorShift(x, 0) == x / 1; }
  }

  method LagSum(alu: Alu, y: array<Word16>, k: nat) returns (sum: Word32)
    requires k <= y.Length && Fits(y[..])
    modifies alu
    ensures sum == 2 * Lag(y[..], k, y.Length - k) && alu.Overflow == old(alu.Overflow)
  {
    hide LMac, Product, Lag, Energy;
    ghost var ys := y[..];
    LagEmpty(ys, k);
    sum := 0;
    for j := 0 to y.Length - k
      invariant sum == 2 * Lag(ys, k, j) && alu.Overflow == old(alu.Overflow)
    {
      LagStep(ys, k, j);
      MacIsExact(sum, ys[j], ys[j + k]);
      sum := alu.Mac(sum, y[j], y[j + k]);
    }
  }

  lemma LagStep(y: seq<Word16>, k: nat, j: nat)
    requires k + j < |y| && Fits(y)
    ensures Lag(y, k, j + 1) == Lag(y, k, j) + Product(y[j], y[j + k])
    ensures MIN_32 < 2 * Lag(y, k, j + 1) <= MAX_32
    ensures Product(y[j], y[j + k]) != 0x4000_0000
  {
    PartialSumFits(y, k, j + 1);
    ProductBound(y[j], y[j + k]);
    if y[j] == MIN_16 {
      OneSquare(y, j);
    }
  }

  // What the two halves hold: r[0] up to its lowest bit, the other lags exactly.
  ghost predicate IsAutocorrelation(y: seq<Word16>, rh: seq<Word16>, rl: seq<Word16>, n: nat)
    requires |rh| == |rl| && n <= |rh| && n <= |y| + 1
  {
    forall i :: 0 <= i < n ==>
      rl[i] >= 0 && Dpf(rh[i], rl[i]).Value() == if i == 0 then FullPower(y) - FullPower(y) % 2 else FullLag(y, i)
  }

  method PowerWord(ghost y: seq<Word16>, sum: Word32) returns (norm: Word16, r: Dpf)
    requires Fits(y) && sum == 1 + 2 * Energy(y)
    ensures norm == NormL(sum) && r.lo >= 0 && r.Value() == FullPower(y) - FullPower(y) % 2
    ensures 0x4000_0000 <= FullPower(y)
  {
    hide Fits, Energy, FullPower, LShr, NormL;
    FullPowerRange(y);
    norm := Normalize32(sum);
    var full := LShl(sum, norm);
    ExtractDropsOneBit(full);
    r := LExtract(full);
  }

  method LagWord(alu: Alu, y: array<Word16>, k: nat, norm: Word16) returns (r: Dpf)
    requires k <= y.Length && Fits(y[..]) && 1 + 2 * Energy(y[..]) <= MAX_32
    requires Energy(y[..]) >= 0 && norm == NormL(1 + 2 * Energy(y[..]))
    modifies alu
    ensures r.lo >= 0 && r.Value() == FullLag(y[..], k) && alu.Overflow == old(alu.Overflow)
  {
    hide Fits, Energy, FullPower, FullLag, LShr, NormL;
    LagIsExact(y[..], k);
    var sum := LagSum(alu, y, k);
    var full := LShl(sum, norm);
    ExtractDropsOneBit(full);
    r := LExtract(full);
  }

  /** Autocorr of the windowed signal, for any window and any input. */
  method Autocorr(alu: Alu, x: seq<Word16>, window: seq<Word16>, m: nat, rh: array<Word16>, rl: array<Word16>)
    returns (ghost y: seq<Word16>)
    requires |x| == |window| == L_WINDOW && m <= L_WINDOW && rh.Length == rl.Length == m + 1 && rh != rl
    modifies alu, rh, rl
    ensures y == Scale(Windowed(x, window)) && Fits(y)
    ensures IsAutocorrelation(y, rh[..], rl[..], m + 1)
    ensures 0x4000 <= rh[0]
    ensures !alu.Overflow
  {
    hide Fits, Energy, IsAutocorrelation, FullLag, FullPower, NormL, Windowed, Scale;
    var ya := new Word16[L_WINDOW];
    Window(x, window, ya);
    var sum := ScaleSignal(alu, ya);
    y := ya[..];
    PowerIsWord(y);
    var norm, r := PowerWord(y, sum);
    rh[0], rl[0] := r.hi, r.lo;
    First(y, rh[..], rl[..], r);
    for i := 1 to m + 1
      invariant ya[..] == y && !alu.Overflow && 0x4000 <= rh[0]
      invariant IsAutocorrelation(y, rh[..], rl[..], i)
    {
      ghost var h, l := rh[..], rl[..];
      r := LagWord(alu, ya, i, norm);
      rh[i], rl[i] := r.hi, r.lo;
      Next(y, h, l, i, r);
    }
  }

  lemma PowerIsWord(y: seq<Word16>)
    requires Fits(y)
    ensures 1 + 2 * Energy(y) <= MAX_32 && 0 <= Energy(y)
  {
    EnergyNonNegative(y);
  }

  lemma First(y: seq<Word16>, rh: seq<Word16>, rl: seq<Word16>, r: Dpf)
    requires |rh| == |rl| > 0 && rh[0] == r.hi && rl[0] == r.lo >= 0
    requires 0x4000_0000 <= FullPower(y) && r.Value() == FullPower(y) - FullPower(y) % 2
    ensures IsAutocorrelation(y, rh, rl, 1) && 0x4000 <= rh[0]
  {
    hide FullPower;
  }

  lemma Next(y: seq<Word16>, rh: seq<Word16>, rl: seq<Word16>, i: nat, r: Dpf)
    requires 1 <= i < |rh| == |rl| && i <= |y| && IsAutocorrelation(y, rh, rl, i)
    requires r.lo >= 0 && r.Value() == FullLag(y, i)
    ensures IsAutocorrelation(y, rh[i := r.hi], rl[i := r.lo], i + 1)
  {
    hide FullPower, FullLag;
  }

  method Window(x: seq<Word16>, window: seq<Word16>, y: array<Word16>)
    requires |x| == |window| == y.Length
    modifies y
    ensures y[..] == Windowed(x, window)
  {
    hide MultR;
    for i := 0 to y.Length
      invariant forall k :: 0 <= k < i ==> y[k] == MultR(x[k], window[k])
    {
      y[i] := MultR(x[i], window[i]);
    }
  }

  /** Consequences for the recursion that divides by r[0]: its high part is normalised and
      no other autocorrelation is larger. */
  lemma PowerDominates(y: seq<Word16>, rh: seq<Word16>, rl: seq<Word16>, n: nat, i: nat)
    requires |rh| == |rl| && 0 < i < n <= |rh| && n <= |y| + 1 && Fits(y) && IsAutocorrelation(y, rh, rl, n)
    ensures Abs(Dpf(rh[i], rl[i]).Value()) <= Dpf(rh[0], rl[0]).Value()
    ensures 0x4000 <= rh[0]
  {
    hide FullPower, FullLag, Fits, Energy, LShr, NormL, Dpf.Value;
    FullPowerRange(y);
    LagIsExact(y, i);
    HighPart(Dpf(rh[0], rl[0]));
  }

  lemma HighPart(d: Dpf)
    requires d.Value() >= 0x4000_0000
    ensures d.hi >= 0x4000
  {}

  /** A windowed sample is the product rounded to the nearest integer, half a unit up. */
  lemma WindowedSample(x: seq<Word16>, window: seq<Word16>, i: nat)
    requires |x| == |window| && i < |x| && window[i] > MIN_16
    ensures Windowed(x, window)[i] as int == ((x[i] as int) * (window[i] as int) + 0x4000) / 0x8000
  {
    RoundedProduct(x[i], window[i]);
  }

  lemma RoundedProduct(x: Word16, w: Word16)
    requires w > MIN_16
    ensures MultR(x, w) as int == ((x as int) * (w as int) + 0x4000) / 0x8000
  {
    MulMono(Abs(x), 0x8000, Abs(w));
    MulMono(Abs(w), 0x7fff, 0x8000);
    var p := (x as int) * (w as int);
    assert Abs(x) * Abs(w) == Abs(p);
    InWord(p);
  }

  lemma InWord(p: int)
    requires -0x8000 * 0x7fff <= p <= 0x8000 * 0x7fff
    ensures MIN_16 <= (p + 0x4000) / 0x8000 <= MAX_16
  {
    DivBounds(p + 0x4000, 0x8000);
  }
}
