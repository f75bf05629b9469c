/** Spacing of the line spectral frequencies (LSPGETQ.C): the expansion of a codebook vector
    and the stabilisation of the quantised one. */
module LspStability {
  import opened BasicOp
  import opened Ld8a

  const L_LIMIT := 40
  const M_LIMIT := 25681
  const GAP3 := 321

  // ----- Lsp_stability

  // Largest of b[0..j].
  function Carry(b: seq<Word16>, j: nat): Word16
    requires j < |b|
  {
    if j == 0 then b[0] else if Carry(b, j - 1) > b[j] then Carry(b, j - 1) else b[j]
  }

  // Word j after the exchange pass: the running maximum is carried to the end.
  function Exchanged(b: seq<Word16>, j: nat): Word16
    requires |b| == M && j < M
  {
    if j == M - 1 || Carry(b, j) < b[j + 1] then Carry(b, j) else b[j + 1]
  }

  function Lifted(b: seq<Word16>): Word16
    requires |b| == M
  {
    if Exchanged(b, 0) < L_LIMIT then L_LIMIT else Exchanged(b, 0)
  }

  // Word j after the spacing pass.
  function Spaced(b: seq<Word16>, j: nat): Word16
    requires |b| == M && j < M
  {
    if j == 0 then Lifted(b)
    else AtGap(Spaced(b, j - 1), Exchanged(b, j))
  }

  // y, or the word at the required gap above x if y is closer.
  function AtGap(x: Word16, y: Word16): Word16 {
    if y - x < GAP3 then Add(x, GAP3) else y
  }

  function Stabilised(b: seq<Word16>): (s: seq<Word16>)
    requires |b| == M
    ensures |s| == M
  {
    seq(M, j requires 0 <= j < M => if j == M - 1 && Spaced(b, j) > M_LIMIT then M_LIMIT else Spaced(b, j))
  }

  // Exchanging two neighbours permutes.
  lemma SwapPermutes(b: seq<Word16>, j: nat)
    requires j + 1 < |b|
    ensures multiset(b[j := b[j + 1]][j + 1 := b[j]]) == multiset(b)
  {}

  // One turn of the first loop.
  method ExchangePair(buf: array<Word16>, j: nat)
    requires j + 1 < buf.Length
    modifies buf
    ensures buf[j] == old(if buf[j + 1] < buf[j] then buf[j + 1] else buf[j])
    ensures buf[j + 1] == old(if buf[j + 1] < buf[j] then buf[j] else buf[j + 1])
    ensures forall i :: 0 <= i < buf.Length && i != j && i != j + 1 ==> buf[i] == old(buf[i])
    ensures multiset(buf[..]) == multiset(old(buf[..]))
  {
    hide LSub;
    LessByLSub(buf[j + 1], buf[j]);
    if LSub(buf[j + 1], buf[j]) < 0 {
      ghost var b := buf[..];
      var tmp := buf[j + 1];
      buf[j + 1] := buf[j];
      buf[j] := tmp;
      assert buf[..] == b[j := b[j + 1]][j + 1 := b[j]];
      SwapPermutes(b, j);
    }
  }

  method ExchangePass(buf: array<Word16>)
    requires buf.Length == M
    modifies buf
    ensures forall j :: 0 <= j < M ==> buf[j] == Exchanged(old(buf[..]), j)
    ensures multiset(buf[..]) == multiset(old(buf[..]))
  {
    hide Carry, Exchanged;
    ghost var b := buf[..];
    ExchangeEnds(b);
    for j := 0 to M - 1
      invariant forall i :: 0 <= i < j ==> buf[i] == Exchanged(b, i)
      invariant buf[j] == Carry(b, j)
      invariant forall i :: j < i < M ==> buf[i] == b[i]
      invariant multiset(buf[..]) == multiset(b)
    {
      ExchangeStep(b, j);
      ExchangePair(buf, j);
    }
  }

  lemma ExchangeEnds(b: seq<Word16>)
    requires |b| == M
    ensures Carry(b, 0) == b[0] && Exchanged(b, M - 1) == Carry(b, M - 1)
  {}

  lemma ExchangeStep(b: seq<Word16>, j: nat)
    requires |b| == M && j < M - 1
    ensures Carry(b, j + 1) == if b[j + 1] < Carry(b, j) then Carry(b, j) else b[j + 1]
    ensures Exchanged(b, j) == if b[j + 1] < Carry(b, j) then b[j + 1] else Carry(b, j)
  {}

  lemma LessByLSub(x: Word16, y: Word16)
    ensures LSub(x, y) < 0 <==> x < y
  {}

  method Widen(x: Word16, y: Word16) returns (z: Word16)
    ensures z == AtGap(x, y)
  {
    z := y;
    var diff := LSub(y, x);
    if LSub(diff, GAP3) < 0 {
      z := Add(x, GAP3);
    }
  }

  method SpacePass(buf: array<Word16>, ghost b: seq<Word16>)
    requires buf.Length == M == |b| && forall j :: 0 <= j < M ==> buf[j] == Exchanged(b, j)
    modifies buf
    ensures forall j :: 0 <= j < M ==> buf[j] == Spaced(b, j)
  {
    hide Exchanged, AtGap;
    if Sub(buf[0], L_LIMIT) < 0 {
      buf[0] := L_LIMIT;
    }
    for j := 0 to M - 1
      invariant forall i :: 0 <= i <= j ==> buf[i] == Spaced(b, i)
      invariant forall i :: j < i < M ==> buf[i] == Exchanged(b, i)
    {
      buf[j + 1] := Widen(buf[j], buf[j + 1]);
    }
  }

  /** Lsp_stability, whatever the input. */
  method Stability(buf: array<Word16>)
    requires buf.Length == M
    modifies buf
    ensures buf[..] == Stabilised(old(buf[..]))
  {
    hide Spaced, Exchanged;
    ghost var b := buf[..];
    ExchangePass(buf);
    SpacePass(buf, b);
    if Sub(buf[M - 1], M_LIMIT) > 0 {
      buf[M - 1] := M_LIMIT;
    }
  }

  // The spacing pass without saturation.
  function Free(b: seq<Word16>, j: nat): int
    requires |b| == M && j < M
  {
    if j == 0 then Lifted(b) else Max(Exchanged(b, j), Free(b, j - 1) + GAP3)
  }

  // Every word up to n leaves room below the limit for the gaps that follow it.
  predicate RoomTo(b: seq<Word16>, n: nat, limit: int)
    requires |b| == M && n < M
  {
    && Lifted(b) + GAP3 * n <= limit
    && forall j :: 0 < j <= n ==> Exchanged(b, j) + GAP3 * (n - j) <= limit
  }

  lemma {:induction false} FreeBelow(b: seq<Word16>, n: nat, limit: int)
    requires |b| == M && n < M
    ensures Free(b, n) <= limit <==> RoomTo(b, n, limit)
  {
    hide Exchanged, Lifted;
    if n > 0 {
      FreeBelow(b, n - 1, limit - GAP3);
    }
  }

  lemma {:induction false} SpacedIsFree(b: seq<Word16>, j: nat)
    requires |b| == M && j < M
    ensures Spaced(b, j) == if Free(b, j) <= MAX_16 then Free(b, j) else MAX_16
    ensures j > 0 ==> Free(b, j - 1) + GAP3 <= Free(b, j)
    ensures Free(b, j) >= L_LIMIT
  {
    hide Exchanged;
    if j > 0 { SpacedIsFree(b, j - 1); }
  }

  predicate Gap(s: seq<Word16>, j: nat)
    requires j + 1 < |s|
  {
    s[j + 1] - s[j] >= GAP3
  }

  /** The two limits always hold.  The first eight gaps hold exactly when the spacing stays
      within 16 bits; the ninth exactly when the upper limit leaves room for it, so in
      particular whenever the upper limit does not clip. */
  lemma StabilityExact(b: seq<Word16>)
    requires |b| == M
    ensures Stabilised(b)[0] >= L_LIMIT && Stabilised(b)[M - 1] <= M_LIMIT
    ensures (forall j :: 0 <= j < M - 2 ==> Gap(Stabilised(b), j)) <==> RoomTo(b, M - 2, MAX_16)
    ensures Gap(Stabilised(b), M - 2) <==> RoomTo(b, M - 2, M_LIMIT - GAP3)
    ensures Spaced(b, M - 1) <= M_LIMIT ==> forall j :: 0 <= j < M - 1 ==> Gap(Stabilised(b), j)
  {
    hide Exchanged, Spaced, Free, RoomTo, Lifted;
    var s := Stabilised(b);
    FreeBelow(b, M - 2, MAX_16);
    FreeBelow(b, M - 2, M_LIMIT - GAP3);
    forall j | 0 <= j < M
      ensures Spaced(b, j) == if Free(b, j) <= MAX_16 then Free(b, j) else MAX_16
      ensures j > 0 ==> Free(b, j - 1) + GAP3 <= Free(b, j)
    {
      SpacedIsFree(b, j);
    }
    SpacedIsFree(b, 0);
    FreeGrows(b, M - 2);
    LastStep(b);
    assert s[0] == Spaced(b, 0) && s[7] == Spaced(b, 7) && s[8] == Spaced(b, 8);
    if forall j :: 0 <= j < M - 2 ==> Gap(s, j) { assert Gap(s, 7); }
  }

  // No free word is above a later one.
  lemma {:induction false} FreeGrows(b: seq<Word16>, n: nat)
    requires |b| == M && n < M
    ensures forall j :: 0 <= j <= n ==> Free(b, j) <= Free(b, n)
  {
    hide Exchanged;
    if n > 0 { FreeGrows(b, n - 1); }
  }

  // The last word of a spacing that stays in range before it is in range or at its gap.
  lemma LastStep(b: seq<Word16>)
    requires |b| == M
    ensures Free(b, 8) <= MAX_16 <==> Free(b, 7) + GAP3 <= MAX_16
  {}

  lemma {:induction false} ExchangedBound(b: seq<Word16>, j: nat, limit: int)
    requires |b| == M && j < M && forall i :: 0 <= i < M ==> b[i] <= limit
    ensures Carry(b, j) <= limit && Exchanged(b, j) <= limit
  {
    if j > 0 { ExchangedBound(b, j - 1, limit); }
  }

  /** Inputs up to 30199 always keep the first eight gaps; at 30200 the eighth can be lost. */
  lemma ModerateInputs(b: seq<Word16>)
    requires |b| == M && forall i :: 0 <= i < M ==> b[i] <= MAX_16 - GAP3 * (M - 2)
    ensures forall j :: 0 <= j < M - 2 ==> Gap(Stabilised(b), j)
  {
    hide Exchanged, Stabilised;
    forall j | 0 <= j < M ensures Exchanged(b, j) <= MAX_16 - GAP3 * (M - 2) {
      ExchangedBound(b, j, MAX_16 - GAP3 * (M - 2));
    }
    StabilityExact(b);
  }

  lemma {:induction false} LevelInput(b: seq<Word16>, x: Word16, j: nat)
    requires |b| == M && j < M && x >= L_LIMIT && forall i :: 0 <= i < M ==> b[i] == x
    ensures Carry(b, j) == x && Exchanged(b, j) == x && Free(b, j) == x + GAP3 * j
  {
    if j > 0 { LevelInput(b, x, j - 1); }
  }

  lemma GapCanBeLost()
    ensures var b := seq(M, i => 30200); !Gap(Stabilised(b), M - 3)
  {
    hide Exchanged, Free, Spaced;
    var b: seq<Word16> := seq(M, i => 30200);
    LevelInput(b, 30200, 7);
    LevelInput(b, 30200, 8);
    SpacedIsFree(b, 7);
    SpacedIsFree(b, 8);
  }

  /** The upper limit can even put the last word below the one before it. */
  lemma ClipCanInvert()
    ensures var b := seq(M, i => 25700); Stabilised(b)[M - 1] < Stabilised(b)[M - 2]
  {}

  // ----- Lsp_expand_1_2

  // Half of what the pair (x, y) lacks to be gap apart.
  function Lack(x: Word16, y: Word16, gap: Word16): Word16 { Shr(Add(Sub(x, y), gap), 1) }

  // b with words j - 1 and j pushed apart if they are too close.
  function PushApart(b: seq<Word16>, gap: Word16, j: nat): (e: seq<Word16>)
    requires 0 < j < |b|
    ensures |e| == |b| && forall i :: 0 <= i < |b| && i != j - 1 && i != j ==> e[i] == b[i]
  {
    var tmp := Lack(b[j - 1], b[j], gap);
    if tmp > 0 then b[j - 1 := Sub(b[j - 1], tmp)][j := Add(b[j], tmp)] else b
  }

  // b after the pairs lo .. hi - 1, in this order.
  function Expanded(b: seq<Word16>, gap: Word16, lo: nat, hi: nat): (e: seq<Word16>)
    requires 1 <= lo <= hi <= |b|
    ensures |e| == |b|
    ensures forall i :: 0 <= i < lo - 1 || hi <= i < |b| ==> e[i] == b[i]
  {
    if hi == lo then b else PushApart(Expanded(b, gap, lo, hi - 1), gap, hi - 1)
  }

  /** Lsp_expand_1, Lsp_expand_2 and Lsp_expand_1_2, which visit pairs 1 to 4, 5 to 9 and 1 to 9. */
  method Expand(buf: array<Word16>, gap: Word16, lo: nat, hi: nat)
    requires 1 <= lo <= hi <= buf.Length
    modifies buf
    ensures buf[..] == Expanded(old(buf[..]), gap, lo, hi)
  {
    hide Shr, Sub, Add;
    for j := lo to hi
      invariant buf[..] == Expanded(old(buf[..]), gap, lo, j)
    {
      ghost var e := buf[..];
      var diff := Sub(buf[j - 1], buf[j]);
      var tmp := Shr(Add(diff, gap), 1);
      if tmp > 0 {
        buf[j - 1] := Sub(buf[j - 1], tmp);
        buf[j] := Add(buf[j], tmp);
      }
      assert buf[..] == PushApart(e, gap, j);
    }
  }

  /** Pushing the two halves apart in turn is pushing the whole vector apart, and the first
      half does not depend on what the second holds: the encoder measures the vector it sends. */
  lemma {:induction false} ExpandInHalves(b: seq<Word16>, gap: Word16, lo: nat, mid: nat, hi: nat)
    requires 1 <= lo <= mid <= hi <= |b|
    ensures Expanded(Expanded(b, gap, lo, mid), gap, mid, hi) == Expanded(b, gap, lo, hi)
  {
    hide PushApart;
    if hi > mid { ExpandInHalves(b, gap, lo, mid, hi - 1); }
  }

  lemma {:induction false} ExpandIsLocal(b: seq<Word16>, c: seq<Word16>, gap: Word16, lo: nat, hi: nat)
    requires 1 <= lo <= hi <= |b| == |c| && b[..hi] == c[..hi]
    ensures Expanded(b, gap, lo, hi)[..hi] == Expanded(c, gap, lo, hi)[..hi]
  {
    hide Lack, Sub, Add;
    if hi > lo {
      assert b[..hi - 1] == b[..hi][..hi - 1] && c[..hi - 1] == c[..hi][..hi - 1];
      ExpandIsLocal(b, c, gap, lo, hi - 1);
      var d, e := Expanded(b, gap, lo, hi - 1), Expanded(c, gap, lo, hi - 1);
      assert d[hi - 1] == b[..hi][hi - 1] == c[..hi][hi - 1] == e[hi - 1];
      forall i | 0 <= i < hi ensures d[i] == e[i] {
        if i < hi - 1 { assert d[i] == d[..hi - 1][i] == e[..hi - 1][i]; }
      }
    }
  }

  function Total(b: seq<Word16>, n: nat): int
    requires n <= |b|
  {
    if n == 0 then 0 else Total(b, n - 1) + b[n - 1]
  }

  predicate StepFits(b: seq<Word16>, gap: Word16, j: nat)
    requires 0 < j < |b|
  {
    var tmp := Lack(b[j - 1], b[j], gap);
    tmp > 0 ==> MIN_16 <= b[j - 1] - tmp && b[j] + tmp <= MAX_16
  }

  predicate ExpandFits(b: seq<Word16>, gap: Word16, lo: nat, hi: nat)
    requires 1 <= lo <= hi <= |b|
  {
    hi == lo || (ExpandFits(b, gap, lo, hi - 1) && StepFits(Expanded(b, gap, lo, hi - 1), gap, hi - 1))
  }

  lemma {:induction false} TotalFrame(b: seq<Word16>, c: seq<Word16>, n: nat)
    requires n <= |b| == |c| && forall i :: 0 <= i < n ==> b[i] == c[i]
    ensures Total(b, n) == Total(c, n)
  {
    if n > 0 { TotalFrame(b, c, n - 1); }
  }

  lemma {:induction false} StepKeepsTotal(b: seq<Word16>, gap: Word16, j: nat, n: nat)
    requires 0 < j < |b| && j < n <= |b| && StepFits(b, gap, j)
    ensures Total(PushApart(b, gap, j), n) == Total(b, n)
  {
    hide Lack;
    var e := PushApart(b, gap, j);
    if n > j + 1 {
      StepKeepsTotal(b, gap, j, n - 1);
    } else {
      TotalFrame(b, e, j - 1);
      assert Total(b, n) == Total(b, j - 1) + b[j - 1] + b[j];
      assert Total(e, n) == Total(e, j - 1) + e[j - 1] + e[j];
    }
  }

  /** The expansion keeps the sum of the vector when nothing saturates. */
  lemma {:induction false} ExpandKeepsTotal(b: seq<Word16>, gap: Word16, lo: nat, hi: nat)
    requires 1 <= lo <= hi <= |b| && ExpandFits(b, gap, lo, hi)
    ensures Total(Expanded(b, gap, lo, hi), |b|) == Total(b, |b|)
  {
    hide PushApart, StepFits;
    if hi > lo {
      ExpandKeepsTotal(b, gap, lo, hi - 1);
      StepKeepsTotal(Expanded(b, gap, lo, hi - 1), gap, hi - 1, |b|);
    }
  }

  /** Nothing saturates for ten words between 0 and 32000 and the gaps in use. */
  lemma {:induction false} ModerateExpands(b: seq<Word16>, gap: Word16, hi: nat)
    requires 1 <= hi <= |b| == M && 0 <= gap <= 10 && forall i :: 0 <= i < M ==> 0 <= b[i] <= 32000
    ensures ExpandFits(b, gap, 1, hi)
    ensures 0 <= Expanded(b, gap, 1, hi)[hi - 1] <= 32000 + 10 * (hi - 1)
    ensures forall i :: 0 <= i < hi - 1 ==> -10 <= Expanded(b, gap, 1, hi)[i] <= 32000 + 10 * i
  {
    hide Lack, Sub, Add;
    if hi > 1 {
      ModerateExpands(b, gap, hi - 1);
      var e := Expanded(b, gap, 1, hi - 1);
      PairBound(e[hi - 2], e[hi - 1], gap, 32000 + 10 * (hi - 2));
    }
  }

  lemma PairBound(x: Word16, y: Word16, gap: Word16, limit: int)
    requires 0 <= x <= limit && 0 <= y <= 32000 <= limit <= 32090 && 0 <= gap <= 10
    ensures var tmp := Lack(x, y, gap); tmp > 0 ==>
      && -10 <= x - tmp == Sub(x, tmp) <= x && y <= y + tmp == Add(y, tmp) <= limit + 10
  {
    assert TwoTo(1) == 2;
    assert Lack(x, y, gap) == (x - y + gap) / 2;
  }

  // ----- What the expansion is for

  /** A pair that is too close is moved apart by the same amount on both sides to the gap, or to one
      less when the sum is odd; any other pair is left alone.  Afterwards it is at that distance,
      exactly when the words do not cross by more than 16 bits can tell. */
  lemma PushedApart(b: seq<Word16>, gap: Word16, j: nat)
    requires 0 < j < |b| && gap >= 0 && StepFits(b, gap, j)
    ensures var e := PushApart(b, gap, j);
      && (e[j] - e[j - 1] >= gap - 1 <==> b[j - 1] - b[j] + gap <= MAX_16)
      && (b[j] - b[j - 1] >= gap - 1 ==> e == b)
      && (b[j] - b[j - 1] < gap - 1 && b[j - 1] - b[j] + gap <= MAX_16 ==>
            && b[j - 1] - e[j - 1] == e[j] - b[j] > 0
            && gap - 1 <= e[j] - e[j - 1] <= gap)
  {
    var x: int, y: int := b[j - 1], b[j];
    LackOf(b[j - 1], b[j], gap);
    hide Lack;
  }

  /** Words that cross by more stay too close: the sum saturates before it is halved. */
  lemma CrossedStaysCrossed()
    ensures StepFits([32767, 0], 10, 1) && PushApart([32767, 0], 10, 1) == [16384, 16383]
  {
    LackOf(32767, 0, 10);
    hide Lack;
  }

  // Half of the saturated sum, rounded down.
  lemma LackOf(x: Word16, y: Word16, gap: Word16)
    requires gap >= 0
    ensures var t := x as int - y as int + gap as int;
      && (MIN_16 <= x as int - y as int && t <= MAX_16 ==> Lack(x, y, gap) as int == t / 2)
      && (t > MAX_16 ==> Lack(x, y, gap) == 0x3fff)
      && (x as int - y as int < MIN_16 ==> Lack(x, y, gap) < 0)
  {
    assert TwoTo(1) == 2;
    var s := Add(Sub(x, y), gap);
    assert FloorShift(s, 1) == s / 2;
  }

  // No pair crosses by more than 16 bits can tell when it is visited.
  predicate Uncrossed(b: seq<Word16>, gap: Word16, lo: nat, hi: nat)
    requires 1 <= lo <= hi <= |b|
  {
    hi == lo
    || (&& Uncrossed(b, gap, lo, hi - 1)
        && Expanded(b, gap, lo, hi - 1)[hi - 2] - Expanded(b, gap, lo, hi - 1)[hi - 1] + gap <= MAX_16)
  }

  /** Each pair is the gap apart, or one less, when the loop leaves it; the last pair stays so. */
  lemma {:induction false} LeftApart(b: seq<Word16>, gap: Word16, lo: nat, hi: nat)
    requires 1 <= lo < hi <= |b| && gap >= 0 && ExpandFits(b, gap, lo, hi) && Uncrossed(b, gap, lo, hi)
    ensures Expanded(b, gap, lo, hi)[hi - 1] - Expanded(b, gap, lo, hi)[hi - 2] >= gap - 1
  {
    hide PushApart, StepFits;
    PushedApart(Expanded(b, gap, lo, hi - 1), gap, hi - 1);
  }

  /** Ten words between low and high expand without saturation or crossing, and stay within ten of
      the one and ninety of the other. */
  lemma {:induction false} RangeExpands(b: seq<Word16>, gap: Word16, low: int, high: int, hi: nat)
    requires 1 <= hi <= |b| == M && 0 <= gap <= 10 && -100 <= low <= high <= 32500
    requires forall i :: 0 <= i < M ==> low <= b[i] <= high
    ensures ExpandFits(b, gap, 1, hi) && Uncrossed(b, gap, 1, hi)
    ensures low <= Expanded(b, gap, 1, hi)[hi - 1] <= high + 10 * (hi - 1)
    ensures forall i :: 0 <= i < M ==> low - 10 <= Expanded(b, gap, 1, hi)[i] <= high + 10 * (hi - 1)
  {
    hide Lack, Sub, Add;
    if hi > 1 {
      RangeExpands(b, gap, low, high, hi - 1);
      var e := Expanded(b, gap, 1, hi - 1);
      PairInRange(e[hi - 2], e[hi - 1], gap, low, high + 10 * (hi - 2));
    }
  }

  lemma PairInRange(x: Word16, y: Word16, gap: Word16, low: int, limit: int)
    requires -100 <= low && low <= x <= limit && low <= y <= limit <= 32590 && 0 <= gap <= 10
    ensures x - y + gap <= MAX_16
    ensures var tmp := Lack(x, y, gap); tmp > 0 ==>
      && low - 10 <= x - tmp == Sub(x, tmp) <= x && y <= y + tmp == Add(y, tmp) <= limit + 10
  {
    LackOf(x, y, gap);
  }
}
