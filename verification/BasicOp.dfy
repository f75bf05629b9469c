/** The 16- and 32-bit fixed-point operators of BASIC_OP.C.
    Words are bounded integers.  The saturating operators clamp; the plain C
    additions used by the optimised loops wrap, and have their own definitions. */
module BasicOp {

  const MAX_16 := 0x7fff
  const MIN_16 := -0x8000
  const MAX_32 := 0x7fff_ffff
  const MIN_32 := -0x8000_0000

  type Word16 = x: int | -0x8000 <= x <= 0x7fff
  type Word32 = x: int | -0x8000_0000 <= x <= 0x7fff_ffff

  predicate IsWord32(x: int) { MIN_32 <= x <= MAX_32 }

  function Clamp16(x: int): Word16 {
    if x > MAX_16 then MAX_16 else if x < MIN_16 then MIN_16 else x
  }

  function Clamp32(x: int): Word32 {
    if x > MAX_32 then MAX_32 else if x < MIN_32 then MIN_32 else x
  }

  // Plain C arithmetic on 16 and 32 bits, two's complement.
  function Wrap16(x: int): Word16 {
    (x + 0x8000) % 0x1_0000 - 0x8000
  }

  function Wrap32(x: int): Word32 {
    (x + 0x8000_0000) % 0x1_0000_0000 - 0x8000_0000
  }

  function TwoTo(n: nat): (r: nat)
    ensures r >= 1
  {
    if n == 0 then 1 else 2 * TwoTo(n - 1)
  }

  function Abs(x: int): nat {
    if x < 0 then -x else x
  }

  function Max(x: int, y: int): int {
    if x >= y then x else y
  }

  function Product(x: int, y: int): int { x * y }

  lemma IsProduct(x: int, y: int)
    ensures Product(x, y) == x * y
  {}

  // ----- 16-bit operators

  function Add(x: Word16, y: Word16): Word16 { Clamp16(x + y) }

  function Sub(x: Word16, y: Word16): Word16 { Clamp16(x - y) }

  function Negate(x: Word16): Word16 { if x == MIN_16 then MAX_16 else -x }

  // The C expression clears the low 15 bits of the product and shifts them out.
  function Mult(x: Word16, y: Word16): Word16 { Clamp16((x * y) / 0x8000) }

  function MultR(x: Word16, y: Word16): Word16 { Clamp16((x * y + 0x4000) / 0x8000) }

  function Shr(x: Word16, n: int): Word16 {
    if n < 0 then (if x != 0 && -n > 15 then (if x > 0 then MAX_16 else MIN_16) else Clamp16(x * TwoTo(-n)))
    else if n >= 15 then (if x < 0 then -1 else 0)
    else FloorShift(x, n)
  }

  function Shl(x: Word16, n: int): Word16 { Shr(x, -n) }

  // ----- 32-bit operators

  function ExtractH(x: Word32): Word16 { x / 0x1_0000 }

  function ExtractL(x: Word32): Word16 { Wrap16(x) }

  function LDepositH(x: Word16): Word32 { x * 0x1_0000 }

  function LMult(x: Word16, y: Word16): (r: Word32)
    ensures r == Clamp32(2 * (x * y))
  {
    ProductBound(x, y);
    var p := x * y;
    if p != 0x4000_0000 then p * 2 else MAX_32
  }

  // The sum is formed modulo 2^32; overflow is read off the three sign bits.
  function LAdd(x: Word32, y: Word32): (r: Word32)
    ensures r == Clamp32(x + y)
  {
    var sum := Wrap32(x + y);
    if (x < 0) == (y < 0) && (sum < 0) != (x < 0) then
      if x < 0 then MIN_32 else MAX_32
    else sum
  }

  function LSub(x: Word32, y: Word32): (r: Word32)
    ensures r == Clamp32(x - y)
  {
    var diff := Wrap32(x - y);
    if (x < 0) != (y < 0) && (diff < 0) != (x < 0) then
      if x < 0 then MIN_32 else MAX_32
    else diff
  }

  function LMac(acc: Word32, x: Word16, y: Word16): Word32 { LAdd(acc, LMult(x, y)) }

  function LMsu(acc: Word32, x: Word16, y: Word16): Word32 { LSub(acc, LMult(x, y)) }

  function LAbs(x: Word32): Word32 {
    if x == MIN_32 then MAX_32 else Abs(x)
  }

  function Round(x: Word32): Word16 { ExtractH(LAdd(x, 0x8000)) }

  // Arithmetic right shift: division by a power of two, rounding down.
  function FloorShift(x: int, n: nat): (r: int)
    ensures x >= 0 ==> 0 <= r <= x
    ensures x < 0 ==> x <= r < 0
  {
    DivBounds(x, TwoTo(n));
    x / TwoTo(n)
  }

  // Closed form of L_shr: a floor division to the right, a clamped product to the left.
  function LShr(x: Word32, n: int): Word32 {
    if n >= 0 then FloorShift(x, n) else Clamp32(x * TwoTo(-n))
  }

  function LShl(x: Word32, n: int): Word32 { LShr(x, -n) }

  function LShrR(x: Word32, n: int): Word32 {
    if n > 31 then 0
    else if n > 0 && FloorShift(x, n - 1) % 2 != 0 then HalfFits(x, n); LShr(x, n) + 1
    else LShr(x, n)
  }

  // Number of left shifts that bring a word to full scale.
  function NormL(x: Word32): nat {
    if x == 0 then 0
    else if x == -1 then 31
    else NormMagnitude(if x < 0 then -1 - x else x)
  }

  function NormMagnitude(m: nat): (r: nat)
    requires 0 < m <= MAX_32
    ensures r <= 30 && 0x4000_0000 <= m * TwoTo(r) < 0x8000_0000
    decreases MAX_32 - m
  {
    if m >= 0x4000_0000 then 0
    else
      var r := 1 + NormMagnitude(2 * m);
      assert m * TwoTo(r) == 2 * m * TwoTo(r - 1);
      TwoToLarge(r);
      r
  }

  function DivS(x: Word16, y: Word16): (r: Word16)
    requires 0 <= x <= y && y > 0
    ensures r >= 0
  {
    if x == y then MAX_16 else DivSRange(x, y); (x * 0x8000) / y
  }

  // ----- Arithmetic facts

  lemma ProductBound(x: Word16, y: Word16)
    ensures -0x4000_0000 <= x * y <= 0x4000_0000
    ensures x * y == 0x4000_0000 <==> x == MIN_16 && y == MIN_16
  {
    MulMono(Abs(x), 0x8000, Abs(y));
    MulMono(Abs(y), 0x8000, 0x8000);
    if x * y == 0x4000_0000 && Abs(x) < 0x8000 {
      MulMono(Abs(x), 0x7fff, Abs(y));
      assert false;
    }
    if x * y == 0x4000_0000 && Abs(y) < 0x8000 {
      MulMono(Abs(y), 0x7fff, Abs(x));
      assert false;
    }
  }

  // Saturation keeps the sign of a difference.
  lemma CompareBySub(x: Word32, y: Word32)
    ensures LSub(x, y) < 0 <==> x < y
  {}

  lemma MulMono(x: int, y: int, k: int)
    requires x <= y && k >= 0
    ensures x * k <= y * k && k * x <= k * y
  {}

  lemma DivBounds(x: int, d: int)
    requires d > 0
    ensures d * (x / d) <= x < d * (x / d) + d
    ensures x >= 0 ==> 0 <= x / d <= x
    ensures x < 0 ==> x <= x / d < 0
  {
    var q := x / d;
    assert d * q <= x < d * q + d;
    QuotientSign(x, d, q);
  }

  lemma QuotientSign(x: int, d: int, q: int)
    requires d > 0 && d * q <= x < d * q + d
    ensures x >= 0 ==> 0 <= q <= x
    ensures x < 0 ==> x <= q < 0
  {
    if q >= 1 {
      MulMono(1, d, q);
    } else if q <= -1 {
      MulMono(1, d, -1 - q);
      MulMono(1, d, -q);
      assert d * q == -(d * -q) && d * (-1 - q) == d * -q - d;
    } else {
      assert d * q == 0;
    }
  }

  lemma DivUnique(x: int, d: int, q: int)
    requires d > 0 && d * q <= x < d * q + d
    ensures x / d == q
  {
    DivBounds(x, d);
    var e := x / d;
    if e < q { MulMono(e + 1, q, d); assert false; }
    if q < e { MulMono(q + 1, e, d); assert false; }
  }

  lemma DivMono(x: int, y: int, d: int)
    requires d > 0 && x <= y
    ensures x / d <= y / d
  {
    DivBounds(x, d);
    DivBounds(y, d);
    if y / d < x / d { MulMono(y / d + 1, x / d, d); assert false; }
  }

  lemma HalfFits(x: Word32, n: int)
    requires 0 < n <= 31
    ensures MIN_32 <= FloorShift(x, n) + 1 <= MAX_32
  {}

  lemma DivSRange(x: int, y: int)
    requires 0 <= x < y
    ensures 0 <= (x * 0x8000) / y <= MAX_16
  {
    var q := (x * 0x8000) / y;
    DivBounds(x * 0x8000, y);
    if q > MAX_16 { MulMono(0x8000, q, y); assert false; }
  }

  lemma {:induction false} TwoToLarge(n: nat)
    ensures n >= 31 ==> TwoTo(n) >= 0x8000_0000
    ensures n >= 1 ==> TwoTo(n) == 2 * TwoTo(n - 1)
    ensures n == 30 ==> TwoTo(n) == 0x4000_0000
  {
    if n > 31 {
      TwoToLarge(n - 1);
    } else {
      assert TwoTo(10) == 0x400;
      TwoToSum(10, 10);
      TwoToSum(20, 10);
      assert TwoTo(31) == 2 * TwoTo(30);
    }
  }

  lemma {:induction false} TwoToSum(m: nat, n: nat)
    ensures TwoTo(m + n) == TwoTo(m) * TwoTo(n)
  {
    if n > 0 {
      TwoToSum(m, n - 1);
      assert TwoTo(m + n) == 2 * TwoTo(m + (n - 1));
      assert TwoTo(m) * TwoTo(n) == 2 * (TwoTo(m) * TwoTo(n - 1));
    }
  }

  lemma Wrap16Unique(x: int, w: int, k: int)
    requires x == 0x1_0000 * k + w && -0x8000 <= w < 0x8000
    ensures Wrap16(x) == w
  {
    DivUnique(x + 0x8000, 0x1_0000, k);
  }

  lemma Wrap32Unique(x: int, w: int, k: int)
    requires x == 0x1_0000_0000 * k + w && -0x8000_0000 <= w < 0x8000_0000
    ensures Wrap32(x) == w
  {
    DivUnique(x + 0x8000_0000, 0x1_0000_0000, k);
  }

  lemma TwoToWord()
    ensures TwoTo(15) == 0x8000 && TwoTo(16) == 0x1_0000
  {
    assert TwoTo(8) == 0x100;
    TwoToSum(8, 8);
    assert TwoTo(16) == 2 * TwoTo(15);
  }

  lemma TwoToMono(m: nat, n: nat)
    requires m <= n
    ensures TwoTo(m) <= TwoTo(n)
  {}

  // ----- The shift, normalisation and division loops

  // The word handed to the k-th of the calls L_shl, L_shr, L_shl, ... that negate it in 16 bits.
  function HandedOver(n: Word16, k: nat): Word16 {
    if k == 0 then n else Wrap16(-(HandedOver(n, k - 1) as int))
  }

  // Call k hands over to the other routine: L_shl for words up to zero, L_shr for negative words.
  predicate HandsOver(n: Word16, k: nat) {
    if k % 2 == 0 then HandedOver(n, k) <= 0 else HandedOver(n, k) < 0
  }

  /** The mutual recursion of L_shl and L_shr never ends exactly when the shift is -32768. */
  lemma EndlessShift(n: Word16)
    ensures (forall k: nat :: HandsOver(n, k)) <==> n == MIN_16
  {
    if n == MIN_16 {
      forall k: nat ensures HandsOver(n, k) { SelfNegating(k); }
    } else if n > 0 {
      assert !HandsOver(n, 0);
    } else {
      Wrap16Unique(-n, -n, 0);
      assert HandedOver(n, 1) == Wrap16(-HandedOver(n, 0));
      assert !HandsOver(n, 1);
    }
  }

  lemma {:induction false} SelfNegating(k: nat)
    ensures HandedOver(MIN_16, k) == MIN_16
  {
    if k > 0 {
      SelfNegating(k - 1);
      Wrap16Unique(-MIN_16, MIN_16, 1);
    }
  }

  /** L_shl, for every shift but the endless one. */
  method ShiftLeft32(x: Word32, n: Word16) returns (r: Word32)
    requires n != MIN_16
    ensures r == LShl(x, n)
    decreases n <= 0
  {
    r := 0;
    if n <= 0 {
      r := ShiftRight32(x, -n);
    } else {
      var y, k := x, n;
      while k > 0
        invariant 0 <= k <= n
        invariant x * TwoTo(n) == y * TwoTo(k)
        invariant k < n ==> r == y
      {
        var next := TwoTo(k - 1);
        assert TwoTo(k) == 2 * next;
        if y > 0x3fff_ffff {
          assert y * TwoTo(k) == 2 * (y * next);
          MulMono(1, next, y);
          return MAX_32;
        } else if y < -0x4000_0000 {
          assert y * TwoTo(k) == 2 * (y * next);
          MulMono(1, next, -y);
          return MIN_32;
        }
        assert y * TwoTo(k) == (2 * y) * next;
        y := 2 * y;
        r := y;
        k := k - 1;
      }
      assert y * TwoTo(0) == y;
    }
  }

  /** L_shr.  Negative words are complemented, shifted and complemented back. */
  method ShiftRight32(x: Word32, n: Word16) returns (r: Word32)
    requires n != MIN_16
    ensures r == LShr(x, n)
    decreases n < 0
  {
    if n < 0 {
      r := ShiftLeft32(x, -n);
    } else if n >= 31 {
      r := if x < 0 then -1 else 0;
      TwoToLarge(n);
      if x < 0 { DivUnique(x, TwoTo(n), -1); } else { DivUnique(x, TwoTo(n), 0); }
    } else if x < 0 {
      r := -1 - FloorShift(-1 - x, n);
      ComplementShift(x, TwoTo(n));
    } else {
      r := FloorShift(x, n);
    }
  }

  lemma ComplementShift(x: int, d: int)
    requires d > 0
    ensures -1 - (-1 - x) / d == x / d
  {
    DivBounds(x, d);
    var q := x / d;
    assert d * (-1 - q) == -d - d * q;
    DivUnique(-1 - x, d, -1 - q);
  }

  /** norm_l: terminates on every word and finds the normalising shift. */
  method Normalize32(x: Word32) returns (n: Word16)
    ensures n == NormL(x)
  {
    if x == 0 {
      n := 0;
    } else if x == -1 {
      n := 31;
    } else {
      var m := if x < 0 then -1 - x else x;
      n := 0;
      while m < 0x4000_0000
        invariant 0 < m <= MAX_32
        invariant 0 <= n && n + NormMagnitude(m) == NormL(x)
        decreases MAX_32 - m
      {
        m := 2 * m;
        n := n + 1;
      }
    }
  }

  /** After the shift norm_l asks for, L_shl never saturates and a nonzero word has full magnitude. */
  lemma NormalizedShift(x: Word32)
    ensures LShl(x, NormL(x)) == x * TwoTo(NormL(x))
    ensures x != 0 ==> 0x4000_0000 <= Abs(x * TwoTo(NormL(x))) <= 0x8000_0000
    ensures 0 <= NormL(x) <= 31
  {
    var n := NormL(x);
    if x == -1 {
      TwoToLarge(30);
      assert TwoTo(31) == 2 * TwoTo(30);
    } else if x < 0 {
      NegativeFits(-1 - x, n);
      assert x * TwoTo(n) == -((-1 - x + 1) * TwoTo(n));
    }
    assert FloorShift(x, 0) == x / 1;
  }

  lemma NegativeFits(m: nat, n: nat)
    requires n <= 30 && 0x4000_0000 <= m * TwoTo(n) < 0x8000_0000
    ensures 0x4000_0000 <= (m + 1) * TwoTo(n) <= 0x8000_0000
  {
    // m * 2^n is a multiple of 2^n below 2^31, so there is room for one more 2^n.
    var d, e := TwoTo(n), TwoTo(31 - n);
    assert d * e == 0x8000_0000 by {
      TwoToSum(n, 31 - n);
      TwoToLarge(30);
      assert TwoTo(31) == 2 * TwoTo(30);
    }
    assert (m + 1) * d == m * d + d;
    if e < m + 1 {
      MulMono(e, m, d);
      assert false;
    }
    MulMono(m + 1, e, d);
  }

  /** div_s: the 15-step restoring division loop computes the floor of the Q15 quotient. */
  method DivideFraction(x: Word16, y: Word16) returns (r: Word16)
    requires 0 <= x <= y && y > 0
    ensures r == DivS(x, y)
    ensures x < y ==> Product(r, y) <= x * 0x8000 < Product(r + 1, y)
  {
    hide Product;
    Start(x, y);
    r := 0;
    if x == 0 {
      QuotientOf(0, y, 0, 0);
    } else if x == y {
      r := MAX_16;
    } else {
      var num: int := x;
      var quot: int := 0;
      for i := 0 to 15
        invariant 0 <= num < y
        invariant 0 <= quot < TwoTo(i)
        invariant Product(quot, y) + num == Product(x, TwoTo(i))
      {
        RestoringStep(x, y, TwoTo(i), quot, num);
        quot := quot * 2;
        num := num * 2;
        if num >= y {
          num := num - y;
          quot := quot + 1;
        }
      }
      TwoToWord();
      r := quot;
      FullScale(x);
      QuotientOf(x, y, quot, num);
    }
  }

  lemma Start(x: int, y: int)
    ensures Product(0, y) == 0 && Product(x, TwoTo(0)) == x
  {}

  lemma FullScale(x: int)
    ensures Product(x, 0x8000) == x * 0x8000
  {}

  lemma QuotientOf(x: int, y: int, quot: int, num: int)
    requires y > 0 && 0 <= num < y && Product(quot, y) + num == x * 0x8000
    ensures (x * 0x8000) / y == quot && Product(quot, y) <= x * 0x8000 < Product(quot + 1, y)
  {
    assert y * quot == quot * y && (quot + 1) * y == quot * y + y;
    DivUnique(x * 0x8000, y, quot);
  }

  lemma RestoringStep(x: int, y: int, p: int, quot: int, num: int)
    requires Product(quot, y) + num == Product(x, p)
    ensures Product(quot * 2, y) + num * 2 == Product(x, 2 * p)
    ensures Product(quot * 2 + 1, y) + (num * 2 - y) == Product(x, 2 * p)
  {
    assert (quot * 2) * y == 2 * (quot * y);
    assert (quot * 2 + 1) * y == (quot * 2) * y + y;
    assert x * (2 * p) == 2 * (x * p);
  }
}
