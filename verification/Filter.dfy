/** The unrolled filters of FILTER.C: synthesis two samples at a time, and the residual with
    two accumulators.  Their 32-bit additions wrap; the shift and rounding of the synthesis saturate. */
module Filter {
  import opened BasicOp
  import opened Ld8a

  const MAX_LG := 90  // what the local buffer of 100 words leaves after the M words of memory

  // ----- Wrapping sums

  lemma WrapSub(x: int, y: int)
    ensures Wrap32(Wrap32(x) - Wrap32(y)) == Wrap32(x - y)
    ensures Wrap32(Wrap32(x) + Wrap32(y)) == Wrap32(x + y)
  {
    hide Wrap32;
    var a := WrapSplit(x);
    var b := WrapSplit(y);
    var c := WrapSplit(x - y);
    var d := WrapSplit(x + y);
    Wrap32Unique(Wrap32(x) - Wrap32(y), Wrap32(x - y), c - a + b);
    Wrap32Unique(Wrap32(x) + Wrap32(y), Wrap32(x + y), d - a - b);
  }

  lemma WrapSplit(x: int) returns (q: int)
    ensures x == 0x1_0000_0000 * q + Wrap32(x)
  {
    q := (x + 0x8000_0000) / 0x1_0000_0000;
  }

  lemma WrapScale(x: int)
    ensures Wrap32(8 * Wrap32(x)) == Wrap32(8 * x)
    ensures Wrap32(Wrap32(x) + 0x8000) == Wrap32(x + 0x8000)
  {
    hide Wrap32;
    var a := WrapSplit(x);
    var b := WrapSplit(8 * x);
    var c := WrapSplit(x + 0x8000);
    Wrap32Unique(8 * Wrap32(x), Wrap32(8 * x), b - 8 * a);
    Wrap32Unique(Wrap32(x) + 0x8000, Wrap32(x + 0x8000), c - a);
  }

  // a[1] * v[p - 1] + ... + a[j] * v[p - j], exactly.
  function Head(a: seq<Word16>, v: seq<Word16>, p: int, j: nat): int
    requires |a| == M + 1 && j <= M <= p <= |v|
  {
    if j == 0 then 0 else Head(a, v, p, j - 1) + Product(a[j], v[p - j])
  }

  // The remaining products a[j + 1] * v[p - j - 1] + ... + a[M] * v[p - M].
  function Tail(a: seq<Word16>, v: seq<Word16>, p: int, j: nat): int
    requires |a| == M + 1 && 1 <= j <= M <= p <= |v| + j
    decreases M - j
  {
    if j == M then 0 else Tail(a, v, p, j + 1) + Product(a[j + 1], v[p - j - 1])
  }

  lemma {:induction false} HeadPlusTail(a: seq<Word16>, v: seq<Word16>, p: int, j: nat)
    requires |a| == M + 1 && 1 <= j <= M <= p <= |v|
    ensures Head(a, v, p, j) + Tail(a, v, p, j) == Head(a, v, p, M)
    decreases M - j
  {
    hide Product;
    if j < M { HeadPlusTail(a, v, p, j + 1); }
  }

  // ----- Synthesis

  // The accumulator of the one-at-a-time filter after taps 0 to j, in its order.
  function Direct(a: seq<Word16>, v: seq<Word16>, x: Word16, j: nat): Word32
    requires |a| == M + 1 && j <= M <= |v|
  {
    if j == 0 then Wrap32(2 * Product(x, a[0]))
    else Wrap32(Direct(a, v, x, j - 1) - Wrap32(2 * Product(a[j], v[|v| - j])))
  }

  lemma {:induction false} DirectIsExact(a: seq<Word16>, v: seq<Word16>, x: Word16, j: nat)
    requires |a| == M + 1 && j <= M <= |v|
    ensures Direct(a, v, x, j) == Wrap32(2 * Product(x, a[0]) - 2 * Head(a, v, |v|, j))
  {
    hide Product, Wrap32;
    if j > 0 {
      DirectIsExact(a, v, x, j - 1);
      WrapSub(2 * Product(x, a[0]) - 2 * Head(a, v, |v|, j - 1), 2 * Product(a[j], v[|v| - j]));
    }
  }

  function Output(s: Word32): Word16 { Round(LShl(s, 3)) }

  // The memory followed by n outputs of the one-at-a-time recursion on x.
  function Synthesis(a: seq<Word16>, mem: seq<Word16>, x: seq<Word16>, n: nat): (v: seq<Word16>)
    requires |a| == M + 1 && |mem| == M && n <= |x|
    ensures |v| == M + n && mem <= v
  {
    if n == 0 then mem
    else
      var v := Synthesis(a, mem, x, n - 1);
      v + [Output(Direct(a, v, x[n - 1], M))]
  }

  lemma {:induction false} SilentHead(a: seq<Word16>, v: seq<Word16>, p: int, j: nat)
    requires |a| == M + 1 && j <= M <= p <= |v| && forall k :: 0 <= k < |v| ==> v[k] == 0
    ensures Head(a, v, p, j) == 0
  {
    if j > 0 { SilentHead(a, v, p, j - 1); }
  }

  /** A filter whose first coefficient is 1 in Q12, started from silence on an input that begins with 1 in Q12,
      puts out 1 in Q12 first. */
  lemma {:induction false} UnitSample(a: seq<Word16>, mem: seq<Word16>, x: seq<Word16>, n: nat)
    requires |a| == M + 1 && |mem| == M && 1 <= n <= |x|
    requires a[0] == 4096 && x[0] == 4096 && forall k :: 0 <= k < M ==> mem[k] == 0
    ensures Synthesis(a, mem, x, n)[M] == 4096
  {
    if n > 1 {
      UnitSample(a, mem, x, n - 1);
    } else {
      assert Synthesis(a, mem, x, 0) == mem;
      DirectIsExact(a, mem, x[0], M);
      SilentHead(a, mem, M, M);
      assert Direct(a, mem, x[0], M) == 0x200_0000;
      assert TwoTo(3) == 8;
      assert Output(0x200_0000) == 4096;
    }
  }

  // What is left of a window is the same in any longer sequence.
  lemma {:induction false} TailPrefix(a: seq<Word16>, v: seq<Word16>, w: seq<Word16>, p: int, j: nat)
    requires |a| == M + 1 && 1 <= j <= M <= p <= |v| + j && v <= w
    ensures Tail(a, v, p, j) == Tail(a, w, p, j)
    decreases M - j
  {
    hide Product;
    if j < M { TailPrefix(a, v, w, p, j + 1); }
  }

  // The two accumulators over taps M down to 2: the outputs at p and p + 1 share the loop.
  method AccumulatePair(a: seq<Word16>, tmp: array<Word16>, p: nat) returns (s1: Word32, s2: Word32)
    requires |a| == M + 1 && M <= p <= tmp.Length
    ensures s1 == Wrap32(-2 * Tail(a, tmp[..p], p, 1))
    ensures s2 == Wrap32(-2 * Tail(a, tmp[..p], p + 1, 1))
  {
    hide Product, Wrap32;
    ghost var v := tmp[..p];
    s1, s2 := Zero(), Zero();
    var j := M;
    while j >= 2
      invariant 1 <= j <= M
      invariant s1 == Wrap32(-2 * Tail(a, v, p, j)) && s2 == Wrap32(-2 * Tail(a, v, p + 1, j))
    {
      WrapSub(-2 * Tail(a, v, p, j), 2 * Product(a[j], v[p - j]));
      WrapSub(-2 * Tail(a, v, p + 1, j), 2 * Product(a[j], v[p + 1 - j]));
      s1 := Wrap32(s1 - Wrap32(2 * Product(a[j], tmp[p - j])));
      s2 := Wrap32(s2 - Wrap32(2 * Product(a[j], tmp[p - j + 1])));
      j := j - 1;
    }
  }

  function Zero(): (z: Word32)
    ensures z == 0 == Wrap32(0)
  {
    0
  }

  // The last two terms complete an accumulator: it then holds what the direct order gives.
  method Complete(a: seq<Word16>, ghost v: seq<Word16>, s0: Word32, last: Word16, x: Word16) returns (y: Word16)
    requires |a| == M + 1 && M <= |v| && last == v[|v| - 1]
    requires s0 == Wrap32(-2 * Tail(a, v, |v|, 1))
    ensures y == Output(Direct(a, v, x, M))
  {
    hide Product, Wrap32, LShr, Round, Head, Tail, Direct;
    var s: Word32 := Wrap32(s0 - Wrap32(2 * Product(a[1], last)));
    s := Wrap32(s + Wrap32(2 * Product(x, a[0])));
    WrapSub(-2 * Tail(a, v, |v|, 1), 2 * Product(a[1], last));
    WrapSub(-2 * Tail(a, v, |v|, 1) - 2 * Product(a[1], last), 2 * Product(x, a[0]));
    HeadPlusTail(a, v, |v|, 1);
    FirstTap(a, v);
    DirectIsExact(a, v, x, M);
    y := Output(s);
  }

  lemma FirstTap(a: seq<Word16>, v: seq<Word16>)
    requires |a| == M + 1 && M <= |v|
    ensures Head(a, v, |v|, 1) == Product(a[1], v[|v| - 1])
  {
    assert Head(a, v, |v|, 0) == 0;
  }

  // Two outputs of the unrolled loop.
  method FilterPair(a: seq<Word16>, tmp: array<Word16>, p: nat, x0: Word16, x1: Word16)
    requires |a| == M + 1 && M <= p && p + 2 <= tmp.Length
    modifies tmp
    ensures var v := old(tmp[..p]);
      var w := v + [Output(Direct(a, v, x0, M))];
      tmp[..p + 2] == w + [Output(Direct(a, w, x1, M))]
  {
    hide Product, Wrap32, Direct, Output;
    ghost var v := tmp[..p];
    var s1, s2 := AccumulatePair(a, tmp, p);
    tmp[p] := Complete(a, v, s1, tmp[p - 1], x0);
    ghost var w := tmp[..p + 1];
    assert w == v + [tmp[p]];
    TailPrefix(a, v, w, p + 1, 1);
    tmp[p + 1] := Complete(a, w, s2, tmp[p], x1);
    assert tmp[..p + 2] == w + [tmp[p + 1]];
  }

  method FilterBlock(a: seq<Word16>, x: array<Word16>, xo: nat, lg: nat, mem: array<Word16>, mo: nat)
    returns (tmp: array<Word16>)
    requires |a| == M + 1 && lg % 2 == 0 && lg <= MAX_LG && xo + lg <= x.Length && mo + M <= mem.Length
    ensures fresh(tmp) && tmp.Length == MAX_LG + M
    ensures tmp[..M + lg] == Synthesis(a, mem[mo..mo + M], x[xo..xo + lg], lg)
  {
    hide Output, Direct;
    tmp := new Word16[MAX_LG + M];
    for i := 0 to M
      invariant forall k :: 0 <= k < i ==> tmp[k] == mem[mo + k]
    {
      tmp[i] := mem[mo + i];
    }
    ghost var m, xs := mem[mo..mo + M], x[xo..xo + lg];
    assert tmp[..M] == m;
    var i := 0;
    while i < lg
      invariant 0 <= i <= lg && i % 2 == 0 && x[xo..xo + lg] == xs
      invariant tmp[..M + i] == Synthesis(a, m, xs, i)
    {
      assert xs[i] == x[xo + i] && xs[i + 1] == x[xo + i + 1];
      assert Synthesis(a, m, xs, i + 2)
          == Synthesis(a, m, xs, i + 1) + [Output(Direct(a, Synthesis(a, m, xs, i + 1), xs[i + 1], M))];
      FilterPair(a, tmp, M + i, x[xo + i], x[xo + i + 1]);
      i := i + 2;
    }
  }

  /** Syn_filt: the unrolled loop gives the samples of the one-at-a-time recursion, whatever
      x, y and the memory share, because the output is copied out after the last input is read. */
  method SynFilt(a: seq<Word16>, x: array<Word16>, xo: nat, y: array<Word16>, yo: nat, lg: nat,
                 mem: array<Word16>, mo: nat, update: bool)
    requires |a| == M + 1 && lg % 2 == 0 && lg <= MAX_LG
    requires xo + lg <= x.Length && yo + lg <= y.Length && mo + M <= mem.Length
    requires update ==> lg >= M && mem != y
    modifies y, mem
    ensures var v := Synthesis(a, old(mem[mo..mo + M]), old(x[xo..xo + lg]), lg);
      && y[..] == old(y[..yo]) + v[M..] + old(y[yo + lg..])
      && (mem != y ==> mem[..] == if update then old(mem[..mo]) + v[lg..] + old(mem[mo + M..]) else old(mem[..]))
  {
    hide Synthesis;
    var tmp := FilterBlock(a, x, xo, lg, mem, mo);
    ghost var v := tmp[..M + lg];
    CopyInto(tmp, M, y, yo, lg);
    assert v[M..] == tmp[M..M + lg];
    if update {
      assert y[yo + lg - M..yo + lg] == v[lg..];
      CopyInto(y, yo + lg - M, mem, mo, M);
    }
  }

  method CopyInto(src: array<Word16>, so: nat, dst: array<Word16>, d: nat, n: nat)
    requires src != dst && so + n <= src.Length && d + n <= dst.Length
    modifies dst
    ensures dst[..] == old(dst[..d]) + src[so..so + n] + old(dst[d + n..])
  {
    for i := 0 to n
      invariant forall k :: 0 <= k < d || d + n <= k < dst.Length ==> dst[k] == old(dst[k])
      invariant forall k :: d <= k < d + i ==> dst[k] == src[so + k - d]
    {
      dst[d + i] := src[so + i];
    }
    assert dst[d..d + n] == src[so..so + n];
    assert dst[..] == dst[..d] + dst[d..d + n] + dst[d + n..];
  }

  // ----- Residual

  // One tap after another, as a single wrapping sum.
  function OneSum(a: seq<Word16>, v: seq<Word16>, p: int): int
    requires |a| == M + 1 && M <= p < |v|
  {
    Product(v[p], a[0]) + Head(a, v, p, M)
  }

  // Scaling and rounding modulo 2^32.
  function ResidualWord(s: Word32): Word16 {
    ExtractH(Wrap32(Wrap32(8 * s) + 0x8000))
  }

  // The odd and the even taps up to j.
  function Split(a: seq<Word16>, v: seq<Word16>, p: int, first: nat, n: nat): int
    requires |a| == M + 1 && M <= p < |v| && 1 <= first <= 2 && n <= 5
  {
    if n == 0 then 0
    else Split(a, v, p, first, n - 1) + Product(a[first + 2 * (n - 1)], v[p - first - 2 * (n - 1)])
  }

  lemma {:induction false} SplitSums(a: seq<Word16>, v: seq<Word16>, p: int, n: nat)
    requires |a| == M + 1 && M <= p < |v| && n <= 5
    ensures Split(a, v, p, 1, n) + Split(a, v, p, 2, n) == Head(a, v, p, 2 * n)
  {
    hide Product;
    if n > 0 {
      SplitSums(a, v, p, n - 1);
      assert Head(a, v, p, 2 * n) == Head(a, v, p, 2 * n - 1) + Product(a[2 * n], v[p - 2 * n]);
      assert Head(a, v, p, 2 * n - 1) == Head(a, v, p, 2 * (n - 1)) + Product(a[2 * n - 1], v[p - (2 * n - 1)]);
    }
  }

  method ResidualSum(a: seq<Word16>, x: array<Word16>, p: nat) returns (s: Word32)
    requires |a| == M + 1 && M <= p < x.Length
    ensures s == Wrap32(2 * OneSum(a, x[..], p))
  {
    hide Product, Wrap32;
    ghost var v := x[..];
    var temp: Word32 := Zero();
    s := Wrap32(2 * Product(x[p], a[0]));
    ghost var n := 0;
    var j := 1;
    while j <= M
      invariant 0 <= n <= 5 && j == 1 + 2 * n
      invariant s == Wrap32(2 * Product(v[p], a[0]) + 2 * Split(a, v, p, 1, n))
      invariant temp == Wrap32(2 * Split(a, v, p, 2, n))
    {
      WrapSub(2 * Product(v[p], a[0]) + 2 * Split(a, v, p, 1, n), 2 * Product(a[j], v[p - j]));
      WrapSub(2 * Split(a, v, p, 2, n), 2 * Product(a[j + 1], v[p - j - 1]));
      s := Wrap32(s + Wrap32(2 * Product(a[j], x[p - j])));
      temp := Wrap32(temp + Wrap32(2 * Product(a[j + 1], x[p - j - 1])));
      j := j + 2;
      n := n + 1;
    }
    SplitSums(a, v, p, 5);
    WrapSub(2 * Product(v[p], a[0]) + 2 * Split(a, v, p, 1, 5), 2 * Split(a, v, p, 2, 5));
    s := Wrap32(s + temp);
  }

  // The residual words of n samples from position p on.
  predicate IsResidual(a: seq<Word16>, v: seq<Word16>, p: int, y: seq<Word16>)
    requires |a| == M + 1 && M <= p && p + |y| <= |v|
  {
    forall k :: 0 <= k < |y| ==> y[k] == ExtractH(Wrap32(16 * OneSum(a, v, p + k) + 0x8000))
  }

  /** Residu: the two partial sums give the same word as one sum, all modulo 2^32. */
  method Residu(a: seq<Word16>, x: array<Word16>, xo: nat, y: array<Word16>, yo: nat, lg: nat)
    requires |a| == M + 1 && M <= xo && xo + lg <= x.Length && yo + lg <= y.Length && x != y
    modifies y
    ensures y[..yo] == old(y[..yo]) && y[yo + lg..] == old(y[yo + lg..])
    ensures IsResidual(a, x[..], xo, y[yo..yo + lg])
  {
    hide Wrap32, OneSum;
    ghost var v := x[..];
    for i := 0 to lg
      invariant y[..yo] == old(y[..yo]) && y[yo + lg..] == old(y[yo + lg..])
      invariant IsResidual(a, v, xo, y[yo..yo + i])
    {
      var s := ResidualSum(a, x, xo + i);
      WrapScale(2 * OneSum(a, v, xo + i));
      WrapScale(16 * OneSum(a, v, xo + i));
      ghost var before := y[yo..yo + i];
      y[yo + i] := ResidualWord(s);
      assert y[yo..yo + i + 1] == before + [y[yo + i]];
    }
  }

  // The saturating form both comments keep: L_mult, L_mac over the taps, L_shl, round.
  function Saturating(a: seq<Word16>, v: seq<Word16>, p: int, j: nat): Word32
    requires |a| == M + 1 && j <= M <= p < |v|
  {
    if j == 0 then LMult(v[p], a[0]) else LMac(Saturating(a, v, p, j - 1), a[j], v[p - j])
  }

  function Prefix(a: seq<Word16>, v: seq<Word16>, p: int, j: nat): int
    requires |a| == M + 1 && j <= M <= p < |v|
  {
    2 * Product(v[p], a[0]) + 2 * Head(a, v, p, j)
  }

  lemma {:induction false} SaturatingIsExact(a: seq<Word16>, v: seq<Word16>, p: int, j: nat)
    requires |a| == M + 1 && j <= M <= p < |v|
    requires v[p] != MIN_16 && forall i :: 0 < i <= M ==> a[i] != MIN_16
    requires forall i :: 0 <= i <= j ==> IsWord32(Prefix(a, v, p, i))
    ensures Saturating(a, v, p, j) == Prefix(a, v, p, j)
  {
    hide LMult, LAdd;
    if j == 0 {
      ProductBound(v[p], a[0]);
    } else {
      SaturatingIsExact(a, v, p, j - 1);
      ProductBound(a[j], v[p - j]);
      assert IsWord32(Prefix(a, v, p, j));
    }
  }

  /** The wrapping residual is the saturating one whenever no step of the latter saturates. */
  lemma ResidualIsSaturating(a: seq<Word16>, v: seq<Word16>, p: int)
    requires |a| == M + 1 && M <= p < |v|
    requires v[p] != MIN_16 && forall i :: 0 < i <= M ==> a[i] != MIN_16
    requires forall i :: 0 <= i <= M ==> IsWord32(Prefix(a, v, p, i))
    requires IsWord32(16 * OneSum(a, v, p) + 0x8000) && IsWord32(16 * OneSum(a, v, p))
    ensures ExtractH(Wrap32(16 * OneSum(a, v, p) + 0x8000)) == Round(LShl(Saturating(a, v, p, M), 3))
  {
    hide Head, Saturating, Product;
    SaturatingIsExact(a, v, p, M);
    Wrap32Unique(16 * OneSum(a, v, p) + 0x8000, 16 * OneSum(a, v, p) + 0x8000, 0);
    assert TwoTo(3) == 8;
  }
}
