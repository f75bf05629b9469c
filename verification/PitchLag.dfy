/** Pitch lag indices (PITCH_A.C, DEC_LAG3.C) and the parity bit that protects the first
    of them (P_PARITY.C). */
module PitchLag {
  import opened BasicOp
  import opened Ld8a

  datatype Lag = Lag(T0: Word16, frac: Word16)

  // The ten integer lags searched in the second subframe.
  datatype Range = Range(lo: Word16, hi: Word16)

  // What the closed-loop search can return: fractions only up to lag 84 in the first subframe.
  predicate FirstLag(l: Lag) {
    PIT_MIN <= l.T0 <= PIT_MAX && -1 <= l.frac <= 1 && (l.T0 > 84 ==> l.frac == 0)
  }

  predicate SecondLag(l: Lag, r: Range) {
    r.lo <= l.T0 <= r.hi && -1 <= l.frac <= 1
  }

  // The range around the first lag, clipped to the allowed lags.
  function SecondRange(T0: Word16): Range {
    var lo := if Sub(T0, 5) < PIT_MIN then PIT_MIN else Sub(T0, 5);
    if lo + 9 > PIT_MAX then Range(PIT_MAX - 9, PIT_MAX) else Range(lo, lo + 9)
  }

  /** Enc_lag3.  In the first subframe the search range of the second one is returned too. */
  method EncodeLag(l: Lag, range: Range, first: bool) returns (index: Word16, range': Range)
    requires if first then FirstLag(l) else SecondLag(l, range) && range.lo >= 0 && range.hi == range.lo + 9
    ensures index == if first then FirstIndex(l) else SecondIndex(l, range)
    ensures range' == if first then SecondRange(l.T0) else range
  {
    range' := range;
    if first {
      if Sub(l.T0, 85) <= 0 {
        var i := Add(Add(l.T0, l.T0), l.T0);
        index := Add(Sub(i, 58), l.frac);
      } else {
        index := Add(l.T0, 112);
      }
      var lo := Sub(l.T0, 5);
      if Sub(lo, PIT_MIN) < 0 { lo := PIT_MIN; }
      var hi := Add(lo, 9);
      if Sub(hi, PIT_MAX) > 0 {
        hi := PIT_MAX;
        lo := Sub(hi, 9);
      }
      range' := Range(lo, hi);
    } else {
      var i := Sub(l.T0, range.lo);
      i := Add(Add(i, i), i);
      index := Add(Add(i, 2), l.frac);
    }
  }

  function FirstIndex(l: Lag): int {
    if l.T0 <= 85 then 3 * l.T0 - 58 + l.frac else l.T0 + 112
  }

  function SecondIndex(l: Lag, r: Range): int {
    3 * (l.T0 - r.lo) + 2 + l.frac
  }

  /** Dec_lag3, first subframe.  For the 8-bit indices that are received: thirds of a sample from
      19 1/3 up to 85 - 1/3, whole samples from 85 on. */
  method DecodeFirstLag(index: Word16) returns (l: Lag)
    ensures 0 <= index < 197 ==> l.T0 as int == (index + 2) / 3 + 19 && l.frac as int == (index + 2) % 3 - 1
    ensures 197 <= index < 0x100 ==> l == Lag(index - 112, 0)
    ensures l == DecodedFirst(index)
  {
    if Sub(index, 197) < 0 {
      var T0 := Add(Mult(Add(index, 2), 10923), 19);
      var i := Add(Add(T0, T0), T0);
      l := Lag(T0, Add(Sub(index, i), 58));
    } else {
      l := Lag(Sub(index, 112), 0);
    }
    if 0 <= index < 0x100 { DecodedFirstClosed(index); }
  }

  function DecodedFirst(index: Word16): Lag {
    if Sub(index, 197) < 0 then
      var T0 := Add(Mult(Add(index, 2), 10923), 19);
      Lag(T0, Add(Sub(index, Add(Add(T0, T0), T0)), 58))
    else Lag(Sub(index, 112), 0)
  }

  function DecodedSecond(index: Word16, T0: Word16): Lag {
    var i := Sub(Mult(Add(index, 2), 10923), 1);
    Lag(Add(i, SecondRange(T0).lo), Sub(Sub(index, 2), Add(Add(i, i), i)))
  }

  /** Dec_lag3, second subframe: for the 5-bit indices that are received, thirds of a sample
      counted from the start of the range, which is derived again from the previous integer lag. */
  method DecodeSecondLag(index: Word16, T0: Word16) returns (l: Lag)
    ensures 0 <= index < 0x20 ==>
      l.T0 as int == SecondRange(T0).lo + (index + 2) / 3 - 1 && l.frac as int == (index + 2) % 3 - 1
    ensures l == DecodedSecond(index, T0)
  {
    hide Mult;
    var lo := Sub(T0, 5);
    if Sub(lo, PIT_MIN) < 0 { lo := PIT_MIN; }
    var hi := Add(lo, 9);
    if Sub(hi, PIT_MAX) > 0 {
      hi := PIT_MAX;
      lo := Sub(hi, 9);
    }
    var i := Sub(Mult(Add(index, 2), 10923), 1);
    var T := Add(i, lo);
    i := Add(Add(i, i), i);
    l := Lag(T, Sub(Sub(index, 2), i));
    if 0 <= index < 0x20 { DecodedSecondClosed(index, T0); }
  }

  // The range always lies within the allowed lags.
  lemma RangeBounds(T0: Word16)
    ensures PIT_MIN <= SecondRange(T0).lo <= PIT_MAX - 9
  {}

  lemma DecodedSecondClosed(index: Word16, T0: Word16)
    requires 0 <= index < 0x20
    ensures var l := DecodedSecond(index, T0);
      l.T0 as int == SecondRange(T0).lo + (index + 2) / 3 - 1 && l.frac as int == (index + 2) % 3 - 1
  {
    hide Mult, SecondRange;
    RangeBounds(T0);
    ThirdByMult(index + 2);
    assert Add(index, 2) == index + 2;
    var q, r := (index + 2) / 3, (index + 2) % 3;
    SecondFromThird(index, q, r, SecondRange(T0).lo);
  }

  lemma SecondFromThird(index: Word16, q: Word16, r: int, lo: Word16)
    requires 0 <= index < 0x20 && 0 <= r < 3 && index + 2 == 3 * q + r && PIT_MIN <= lo <= PIT_MAX - 9
    ensures var i := Sub(q, 1);
      Add(i, lo) as int == lo + q - 1 && Sub(Sub(index, 2), Add(Add(i, i), i)) as int == r - 1
  {}

  /** In the first subframe every reachable lag fits 8 bits and is decoded back. */
  lemma FirstRoundTrip(l: Lag)
    requires FirstLag(l)
    ensures 0 < FirstIndex(l) < 0x100 && DecodedFirst(FirstIndex(l)) == l
  {
    var x := FirstIndex(l);
    DecodedFirstClosed(x);
    hide DecodedFirst;
    if l.T0 < 85 {
      assert x + 2 == 3 * (l.T0 - 19) + (l.frac + 1);
    }
  }

  lemma DecodedFirstClosed(index: Word16)
    requires 0 <= index < 0x100
    ensures DecodedFirst(index) == if index < 197 then Lag((index + 2) / 3 + 19, (index + 2) % 3 - 1)
        else Lag(index - 112, 0)
  {
    ThirdByMult(index + 2);
    hide Mult;
    var q, r := (index + 2) / 3, (index + 2) % 3;
    assert Add(index, 2) == index + 2;
    if index < 197 { FromThird(index, q, r); }
  }

  lemma FromThird(index: Word16, q: Word16, r: int)
    requires 0 <= index < 197 && 0 <= r < 3 && index + 2 == 3 * q + r
    ensures var T0 := Add(q, 19);
      T0 == q + 19 && Add(Sub(index, Add(Add(T0, T0), T0)), 58) == r - 1
  {}

  // The multiplication by 10923 / 2^15 is an exact division by three.
  lemma ThirdByMult(x: Word16)
    requires 0 <= x < 0x2000
    ensures Mult(x, 10923) == x / 3
  {}

  /** In the second subframe the lag fits 5 bits and is decoded back from the integer lag
      of the first one alone. */
  lemma SecondRoundTrip(T0: Word16, l: Lag)
    requires PIT_MIN <= T0 <= PIT_MAX && SecondLag(l, SecondRange(T0))
    ensures PIT_MIN <= l.T0 <= PIT_MAX
    ensures 0 < SecondIndex(l, SecondRange(T0)) < 0x20
    ensures DecodedSecond(SecondIndex(l, SecondRange(T0)), T0) == l
  {}

  /** The 8-bit indices the encoder can produce are exactly 1 to 255 without 196: index 0
      would be lag 19 1/3, below the search range, and 196 would be 84 2/3 written as 85 - 1/3,
      which the search never returns.  The decoder accepts both. */
  lemma FirstIndexReachable(index: Word16)
    requires 0 <= index < 0x100
    ensures FirstLag(DecodedFirst(index)) <==> index != 0 && index != 196
    ensures FirstIndex(DecodedFirst(index)) == index
    ensures DecodedFirst(0) == Lag(19, 1) && DecodedFirst(196) == Lag(85, -1)
  {
    hide DecodedFirst;
    DecodedFirstClosed(index);
    DecodedFirstClosed(0);
    DecodedFirstClosed(196);
    if index < 197 { assert index + 2 == 3 * ((index + 2) / 3) + (index + 2) % 3; }
  }

  // ----- Parity

  // Number of ones among bits 2 to 7, plus one, modulo two.
  function Ones(x: int, n: nat): nat {
    if n == 0 then 0 else Ones(x, n - 1) + FloorShift(x, n - 1) % 2
  }

  function Parity(index: Word16): int { (1 + Ones(index / 4, 6)) % 2 }

  /** The parity bit makes the number of ones among it and the six upper bits of the index odd. */
  lemma ParityWrittenOut(index: Word16)
    requires 0 <= index < 0x100
    ensures (Parity(index) + index / 4 % 2 + index / 8 % 2 + index / 16 % 2 + index / 32 % 2 + index / 64 % 2
             + index / 128 % 2) % 2 == 1
  {
    var x := index / 4;
    SmallPowers();
    hide TwoTo, FloorShift;
    OneOf(x, 1, 1);
    OneOf(x, 2, 2);
    OneOf(x, 3, 4);
    OneOf(x, 4, 8);
    OneOf(x, 5, 16);
    OneOf(x, 6, 32);
    assert Ones(x, 0) == 0;
    hide Ones;
    Quarters(index);
  }

  lemma SmallPowers()
    ensures TwoTo(0) == 1 && TwoTo(1) == 2 && TwoTo(2) == 4 && TwoTo(3) == 8 && TwoTo(4) == 16 && TwoTo(5) == 32
  {
    assert TwoTo(3) == 8;
  }

  lemma OneOf(x: int, n: nat, d: int)
    requires n > 0 && d == TwoTo(n - 1)
    ensures Ones(x, n) == Ones(x, n - 1) + x / d % 2
  {
    hide TwoTo;
  }

  lemma Quarters(index: int)
    ensures index / 4 / 2 == index / 8 && index / 4 / 4 == index / 16 && index / 4 / 8 == index / 32
    ensures index / 4 / 16 == index / 64 && index / 4 / 32 == index / 128
  {}

  /** Parity_Pitch. */
  method ParityPitch(index: Word16) returns (parity: Word16)
    ensures parity == Parity(index)
  {
    var sum := SumBits(index);
    parity := sum % 2;
  }

  // The loop that Parity_Pitch and Check_Parity_Pitch share.
  method SumBits(index: Word16) returns (sum: Word16)
    ensures sum == 1 + Ones(index / 4, 6) && 1 <= sum <= 7
  {
    assert TwoTo(1) == 2 && TwoTo(0) == 1;
    var temp := Shr(index, 1);
    sum := 1;
    ghost var x := index / 4;
    for i := 0 to 6
      invariant 0 <= Ones(x, i) <= i && sum == 1 + Ones(x, i)
      invariant temp / 2 == FloorShift(x, i)
    {
      HalfShift(x, i);
      assert Shr(temp, 1) == temp / 2;
      temp := Shr(temp, 1);
      var bit := temp % 2;
      sum := Add(sum, bit);
    }
  }

  lemma HalfShift(x: int, i: nat)
    ensures FloorShift(x, i + 1) == FloorShift(x, i) / 2
  {
    var d := TwoTo(i);
    DivBounds(x, d);
    var q := x / d;
    assert TwoTo(i + 1) == 2 * d && d * q == 2 * (d * (q / 2)) + d * (q % 2) by {
      assert q == 2 * (q / 2) + q % 2;
      assert d * (2 * (q / 2) + q % 2) == 2 * (d * (q / 2)) + d * (q % 2);
    }
    MulMono(q % 2, 1, d);
    assert (2 * d) * (q / 2) == 2 * (d * (q / 2));
    DivUnique(x, 2 * d, q / 2);
  }

  /** Check_Parity_Pitch: 0 exactly when the received bit is the parity of the index. */
  method CheckParityPitch(index: Word16, parity: Word16) returns (error: Word16)
    requires parity == 0 || parity == 1
    ensures error == 0 || error == 1
    ensures error == 0 <==> parity == Parity(index)
  {
    var sum := SumBits(index);
    sum := Add(sum, parity);
    error := sum % 2;
  }

  // The index with one bit inverted.
  function FlipBit(x: int, n: nat): int {
    if FloorShift(x, n) % 2 == 0 then x + TwoTo(n) else x - TwoTo(n)
  }

  /** Inverting one of the six protected bits changes the parity; inverting one of the two
      lowest bits does not. */
  lemma SingleErrorDetected(index: Word16, n: nat)
    requires 0 <= index < 0x100 && n < 8
    ensures 0 <= FlipBit(index, n) < 0x100
    ensures Parity(FlipBit(index, n)) != Parity(index) <==> n >= 2
  {
    var b := Digits(index);
    hide FloorShift, TwoTo, Parity, FromBits, FlipBit;
    ParityOfBits(b);
    ParityOfBits(b[n := 1 - b[n]]);
    FlipIsChange(b, n);
    FlipCount(b, n, 6);
    OddChange(CountBits(b, 6), CountBits(b[n := 1 - b[n]], 6));
  }

  lemma OddChange(x: int, y: int)
    ensures y == x ==> (1 + x) % 2 == (1 + y) % 2
    ensures y == x + 1 || y == x - 1 ==> (1 + x) % 2 != (1 + y) % 2
  {}

  lemma Digits(x: int) returns (b: seq<int>)
    requires 0 <= x < 0x100
    ensures Binary(b) && FromBits(b, 0) == x
  {
    b := seq(8, k requires 0 <= k < 8 => FloorShift(x, k) % 2);
    assert TwoTo(8) == 0x100;
    DigitsOf(x, b, 0);
    assert FloorShift(x, 0) == x;
  }

  lemma FlipIsChange(b: seq<int>, n: nat)
    requires Binary(b) && n < 8
    ensures FlipBit(FromBits(b, 0), n) == FromBits(b[n := 1 - b[n]], 0)
  {
    hide FloorShift, TwoTo, Product, FromBits;
    QuotientOfBits(b, 0, n);
    DigitOf(b, n);
    UnitProduct(TwoTo(n));
    if b[n] == 0 { ChangeBit(b, n, 1, 0); } else { ChangeBit(b, n, 0, 0); }
  }

  lemma DigitOf(b: seq<int>, n: nat)
    requires Binary(b) && n < 8
    ensures FromBits(b, n) % 2 == b[n]
  {}

  lemma UnitProduct(d: int)
    ensures Product(1, d) == d && Product(-1, d) == -d
  {}

  lemma ParityOfBits(b: seq<int>)
    requires Binary(b)
    ensures 0 <= FromBits(b, 0) < 0x100 && Parity(FromBits(b, 0)) == (1 + CountBits(b, 6)) % 2
  {
    assert TwoTo(8) == 0x100 && TwoTo(2) == 4;
    FromBitsBound(b, 0);
    QuotientOfBits(b, 0, 2);
    assert FromBits(b, 0) / 4 == FromBits(b, 2);
    OnesAreBits(b, 6);
  }

  // The sum of b[2], ..., b[m + 1].
  ghost function CountBits(b: seq<int>, m: nat): int
    requires |b| == 8 && m <= 6
  {
    if m == 0 then 0 else CountBits(b, m - 1) + b[m + 1]
  }

  lemma {:induction false} OnesAreBits(b: seq<int>, m: nat)
    requires Binary(b) && m <= 6
    ensures Ones(FromBits(b, 2), m) == CountBits(b, m)
  {
    hide FloorShift, FromBits;
    if m > 0 {
      OnesAreBits(b, m - 1);
      QuotientOfBits(b, 2, m - 1);
      DigitOf(b, m + 1);
    }
  }

  // The number with binary digits b[n], b[n + 1], ..., b[7].
  ghost function FromBits(b: seq<int>, n: nat): int
    requires |b| == 8 && n <= 8
    decreases 8 - n
  {
    if n == 8 then 0 else b[n] + 2 * FromBits(b, n + 1)
  }

  ghost predicate Binary(b: seq<int>) { |b| == 8 && forall k :: 0 <= k < 8 ==> b[k] == 0 || b[k] == 1 }

  lemma {:induction false} DigitsOf(x: int, b: seq<int>, n: nat)
    requires 0 <= x < TwoTo(8) && n <= 8 && |b| == 8 && forall k :: 0 <= k < 8 ==> b[k] == FloorShift(x, k) % 2
    ensures FromBits(b, n) == FloorShift(x, n)
    decreases 8 - n
  {
    if n == 8 {
      DivUnique(x, TwoTo(8), 0);
    } else {
      DigitsOf(x, b, n + 1);
      HalfShift(x, n);
    }
  }

  lemma {:induction false} FromBitsBound(b: seq<int>, n: nat)
    requires Binary(b) && n <= 8
    ensures 0 <= FromBits(b, n) < TwoTo(8 - n)
    decreases 8 - n
  {
    if n < 8 { FromBitsBound(b, n + 1); }
  }

  lemma {:induction false} ChangeBit(b: seq<int>, n: nat, v: int, m: nat)
    requires |b| == 8 && m <= n < 8
    ensures FromBits(b[n := v], m) == FromBits(b, m) + Product(v - b[n], TwoTo(n - m))
    decreases n - m
  {
    hide Product;
    UnitTimes(v - b[n]);
    if m < n {
      ChangeBit(b, n, v, m + 1);
      Doubled(v - b[n], TwoTo(n - m - 1));
    } else {
      SameTail(b, b[n := v], n + 1);
    }
  }

  lemma UnitTimes(x: int)
    ensures Product(x, TwoTo(0)) == x
  {}

  lemma Doubled(x: int, d: int)
    ensures Product(x, 2 * d) == 2 * Product(x, d)
  {}

  lemma {:induction false} SameTail(b: seq<int>, c: seq<int>, m: nat)
    requires |b| == |c| == 8 && m <= 8 && forall k :: m <= k < 8 ==> b[k] == c[k]
    ensures FromBits(b, m) == FromBits(c, m)
    decreases 8 - m
  {
    if m < 8 { SameTail(b, c, m + 1); }
  }

  lemma {:induction false} QuotientOfBits(b: seq<int>, m: nat, n: nat)
    requires Binary(b) && m + n <= 8
    ensures FloorShift(FromBits(b, m), n) == FromBits(b, m + n)
  {
    if n > 0 {
      QuotientOfBits(b, m, n - 1);
      HalfShift(FromBits(b, m), n - 1);
      hide FloorShift;
    } else {
      assert TwoTo(0) == 1;
    }
  }

  lemma {:induction false} FlipCount(b: seq<int>, n: nat, m: nat)
    requires Binary(b) && n < 8 && m <= 6
    ensures CountBits(b[n := 1 - b[n]], m) == CountBits(b, m) + (if 2 <= n < m + 2 then 1 - 2 * b[n] else 0)
  {
    if m > 0 { FlipCount(b, n, m - 1); }
  }
}
