/** The moving-average predictor of the line spectral frequencies (LSPGETQ.C) and its inverse. */
module LspPredictor {
  import opened BasicOp
  import opened Ld8a

  const MA_NP := 4

  type Row = seq<Word16>

  predicate IsTable(t: seq<Row>, n: nat) {
    |t| == n && forall k :: 0 <= k < n ==> |t[k]| == M
  }

  // Prediction coefficients of the two modes, their complements and the inverses of those.
  const FG: seq<seq<Row>> := [
    [[8421, 9109, 9175, 8965, 9034, 9057, 8765, 8775, 9106, 8673],
     [7018, 7189, 7638, 7307, 7444, 7379, 7038, 6956, 6930, 6868],
     [5472, 4990, 5134, 5177, 5246, 5141, 5206, 5095, 4830, 5147],
     [4056, 3031, 2614, 3024, 2916, 2713, 3309, 3237, 2857, 3473]],
    [[7733, 7880, 8188, 8175, 8247, 8490, 8637, 8601, 8359, 7569],
     [4210, 3031, 2552, 3473, 3876, 3853, 4184, 4154, 3909, 3968],
     [3214, 1930, 1313, 2143, 2493, 2385, 2755, 2706, 2542, 2919],
     [3024, 1592, 940, 1631, 1723, 1579, 2034, 2084, 1913, 2601]]]
  const FG_SUM: seq<Row> := [
    [7798, 8447, 8205, 8293, 8126, 8477, 8447, 8703, 9043, 8604],
    [14585, 18333, 19772, 17344, 16426, 16459, 15155, 15220, 16043, 15708]]
  const FG_SUM_INV: seq<Row> := [
    [17210, 15888, 16357, 16183, 16516, 15833, 15888, 15421, 14840, 15597],
    [9202, 7320, 6788, 7738, 8170, 8154, 8856, 8818, 8366, 8544]]

  // ----- One column

  function MacColumn(acc: Word32, prev: seq<Row>, fg: seq<Row>, j: nat, n: nat): Word32
    requires n <= MA_NP && IsTable(prev, MA_NP) && IsTable(fg, MA_NP) && j < M
  {
    if n == 0 then acc else LMac(MacColumn(acc, prev, fg, j, n - 1), prev[n - 1][j], fg[n - 1][j])
  }

  function MsuColumn(acc: Word32, prev: seq<Row>, fg: seq<Row>, j: nat, n: nat): Word32
    requires n <= MA_NP && IsTable(prev, MA_NP) && IsTable(fg, MA_NP) && j < M
  {
    if n == 0 then acc else LMsu(MsuColumn(acc, prev, fg, j, n - 1), prev[n - 1][j], fg[n - 1][j])
  }

  function ComposeWord(ele: Word16, sum: Word16, prev: seq<Row>, fg: seq<Row>, j: nat): Word16
    requires IsTable(prev, MA_NP) && IsTable(fg, MA_NP) && j < M
  {
    ExtractH(MacColumn(LMult(ele, sum), prev, fg, j, MA_NP))
  }

  function ExtractWord(lsp: Word16, inv: Word16, prev: seq<Row>, fg: seq<Row>, j: nat): Word16
    requires IsTable(prev, MA_NP) && IsTable(fg, MA_NP) && j < M
  {
    var temp := ExtractH(MsuColumn(LDepositH(lsp), prev, fg, j, MA_NP));
    ExtractH(LShl(LMult(temp, inv), 3))
  }

  function Composed(ele: Row, fg: seq<Row>, prev: seq<Row>, sum: Row): (lsp: Row)
    requires |ele| == |sum| == M && IsTable(prev, MA_NP) && IsTable(fg, MA_NP)
  {
    seq(M, j requires 0 <= j < M => ComposeWord(ele[j], sum[j], prev, fg, j))
  }

  function Extracted(lsp: Row, fg: seq<Row>, prev: seq<Row>, inv: Row): (ele: Row)
    requires |lsp| == |inv| == M && IsTable(prev, MA_NP) && IsTable(fg, MA_NP)
  {
    seq(M, j requires 0 <= j < M => ExtractWord(lsp[j], inv[j], prev, fg, j))
  }

  // The vectors remembered after one more, most recent first.
  function Pushed(ele: Row, prev: seq<Row>): (next: seq<Row>)
    requires |prev| == MA_NP
    ensures |next| == MA_NP
  {
    [ele] + prev[..MA_NP - 1]
  }

  // ----- The loops

  method PrevCompose(ele: array<Word16>, lsp: array<Word16>, fg: seq<Row>, prev: array<Row>, sum: Row)
    requires ele.Length == lsp.Length == |sum| == M && ele != lsp
    requires prev.Length == MA_NP && IsTable(prev[..], MA_NP) && IsTable(fg, MA_NP)
    modifies lsp
    ensures lsp[..] == Composed(ele[..], fg, prev[..], sum)
  {
    hide LMac, LMult, ExtractH;
    ghost var ps := prev[..];
    for j := 0 to M
      invariant prev[..] == ps
      invariant forall i :: 0 <= i < j ==> lsp[i] == ComposeWord(ele[i], sum[i], ps, fg, i)
    {
      var acc := LMult(ele[j], sum[j]);
      for k := 0 to MA_NP
        invariant acc == MacColumn(LMult(ele[j], sum[j]), ps, fg, j, k)
      {
        assert ps[k] == prev[k];
        acc := LMac(acc, prev[k][j], fg[k][j]);
      }
      lsp[j] := ExtractH(acc);
    }
  }

  method PrevExtract(lsp: array<Word16>, ele: array<Word16>, fg: seq<Row>, prev: array<Row>, inv: Row)
    requires ele.Length == lsp.Length == |inv| == M && ele != lsp
    requires prev.Length == MA_NP && IsTable(prev[..], MA_NP) && IsTable(fg, MA_NP)
    modifies ele
    ensures ele[..] == Extracted(lsp[..], fg, prev[..], inv)
  {
    hide LMsu, LMult, ExtractH, LShr, LDepositH;
    ghost var ps := prev[..];
    for j := 0 to M
      invariant prev[..] == ps
      invariant forall i :: 0 <= i < j ==> ele[i] == ExtractWord(lsp[i], inv[i], ps, fg, i)
    {
      var acc := LDepositH(lsp[j]);
      for k := 0 to MA_NP
        invariant acc == MsuColumn(LDepositH(lsp[j]), ps, fg, j, k)
      {
        assert ps[k] == prev[k];
        acc := LMsu(acc, prev[k][j], fg[k][j]);
      }
      var temp := ExtractH(acc);
      ele[j] := ExtractH(LShl(LMult(temp, inv[j]), 3));
    }
  }

  method PrevUpdate(ele: Row, prev: array<Row>)
    requires prev.Length == MA_NP
    modifies prev
    ensures prev[..] == Pushed(ele, old(prev[..]))
  {
    var k := MA_NP - 1;
    while k > 0
      invariant 0 <= k < MA_NP
      invariant forall i :: 0 <= i <= k ==> prev[i] == old(prev[i])
      invariant forall i :: k < i < MA_NP ==> prev[i] == old(prev[i - 1])
    {
      prev[k] := prev[k - 1];
      k := k - 1;
    }
    prev[0] := ele;
  }

  // ----- Inversion

  // The exact predicted part of column j.
  function Prediction(prev: seq<Row>, fg: seq<Row>, j: nat, n: nat): int
    requires n <= MA_NP && IsTable(prev, MA_NP) && IsTable(fg, MA_NP) && j < M
  {
    if n == 0 then 0 else Prediction(prev, fg, j, n - 1) + Product(prev[n - 1][j], fg[n - 1][j])
  }

  ghost predicate MacFits(acc: int, prev: seq<Row>, fg: seq<Row>, j: nat)
    requires IsTable(prev, MA_NP) && IsTable(fg, MA_NP) && j < M
  {
    forall n :: 0 <= n <= MA_NP ==> IsWord32(acc + 2 * Prediction(prev, fg, j, n))
  }

  ghost predicate MsuFits(acc: int, prev: seq<Row>, fg: seq<Row>, j: nat)
    requires IsTable(prev, MA_NP) && IsTable(fg, MA_NP) && j < M
  {
    forall n :: 0 <= n <= MA_NP ==> IsWord32(acc - 2 * Prediction(prev, fg, j, n))
  }

  // No coefficient is -1, so no product on its own saturates.
  ghost predicate NoMinimum(fg: seq<Row>, j: nat)
    requires IsTable(fg, MA_NP) && j < M
  {
    forall k :: 0 <= k < MA_NP ==> fg[k][j] != MIN_16
  }

  lemma {:induction false} MacIsExact(acc: Word32, prev: seq<Row>, fg: seq<Row>, j: nat, n: nat)
    requires n <= MA_NP && IsTable(prev, MA_NP) && IsTable(fg, MA_NP) && j < M
    requires NoMinimum(fg, j) && MacFits(acc, prev, fg, j)
    ensures MacColumn(acc, prev, fg, j, n) == acc + 2 * Prediction(prev, fg, j, n)
  {
    if n > 0 {
      MacIsExact(acc, prev, fg, j, n - 1);
      ProductBound(prev[n - 1][j], fg[n - 1][j]);
      assert IsWord32(acc + 2 * Prediction(prev, fg, j, n));
    }
  }

  lemma {:induction false} MsuIsExact(acc: Word32, prev: seq<Row>, fg: seq<Row>, j: nat, n: nat)
    requires n <= MA_NP && IsTable(prev, MA_NP) && IsTable(fg, MA_NP) && j < M
    requires NoMinimum(fg, j) && MsuFits(acc, prev, fg, j)
    ensures MsuColumn(acc, prev, fg, j, n) == acc - 2 * Prediction(prev, fg, j, n)
  {
    if n > 0 {
      MsuIsExact(acc, prev, fg, j, n - 1);
      ProductBound(prev[n - 1][j], fg[n - 1][j]);
      assert IsWord32(acc - 2 * Prediction(prev, fg, j, n));
    }
  }

  // What the inverse coefficient must be close to: 2^27 / sum, from below.
  predicate NearInverse(sum: int, inv: int) {
    && 0 <= sum <= 20000 && 0 <= inv < 0x8000
    && -14 * inv <= 5 * (Product(sum, inv) - 0x800_0000) <= 14 * inv
  }

  lemma TablesInvert(mode: int, j: int)
    requires 0 <= mode < 2 && 0 <= j < M
    ensures NearInverse(FG_SUM[mode][j], FG_SUM_INV[mode][j])
    ensures |FG[mode]| == MA_NP && IsTable(FG[mode], MA_NP) && NoMinimum(FG[mode], j)
  {}

  // The target part of the word, before and after multiplication by the inverse.
  function Target(lsp: int, predicted: int): int { (lsp * 0x1_0000 - 2 * predicted) / 0x1_0000 }

  // No step of extracting and composing back saturates.
  ghost predicate NothingSaturates(lsp: Word16, inv: Word16, sum: Word16, prev: seq<Row>, fg: seq<Row>, j: nat)
    requires IsTable(prev, MA_NP) && IsTable(fg, MA_NP) && j < M
  {
    && MsuFits(lsp * 0x1_0000, prev, fg, j)
    && var p := Product(Target(lsp, Prediction(prev, fg, j, MA_NP)), inv);
    && IsWord32(16 * p)
    && MacFits(2 * Product(p / 4096, sum), prev, fg, j)
  }

  // At most five units below and two above.
  predicate Near(back: int, lsp: int) { -5 <= back - lsp <= 2 }

  /** Composing an extracted word with the same memory misses the original by at most five
      units below and two above. */
  lemma InversionError(lsp: Word16, inv: Word16, sum: Word16, prev: seq<Row>, fg: seq<Row>, j: nat)
    requires IsTable(prev, MA_NP) && IsTable(fg, MA_NP) && j < M
    requires NearInverse(sum, inv) && NoMinimum(fg, j) && NothingSaturates(lsp, inv, sum, prev, fg, j)
    ensures Near(ComposeWord(ExtractWord(lsp, inv, prev, fg, j), sum, prev, fg, j), lsp)
  {
    hide MacColumn, MsuColumn, LMult, Product;
    var f := Prediction(prev, fg, j, MA_NP);
    var temp := Target(lsp, f);
    ExtractIsExact(lsp, inv, sum, prev, fg, j);
    var ele := ExtractWord(lsp, inv, prev, fg, j);
    var acc: int := 2 * Product(ele, sum);
    assert IsWord32(acc + 2 * Prediction(prev, fg, j, 0));
    assert IsWord32(acc + 2 * f);
    LMultExact(ele, sum);
    MacIsExact(acc, prev, fg, j, MA_NP);
    RoundTripBound(lsp, f, temp, inv, sum, Product(temp, inv), ele);
  }

  lemma ExtractIsExact(lsp: Word16, inv: Word16, sum: Word16, prev: seq<Row>, fg: seq<Row>, j: nat)
    requires IsTable(prev, MA_NP) && IsTable(fg, MA_NP) && j < M
    requires 0 <= inv && NoMinimum(fg, j) && NothingSaturates(lsp, inv, sum, prev, fg, j)
    ensures ExtractWord(lsp, inv, prev, fg, j) == Product(Target(lsp, Prediction(prev, fg, j, MA_NP)), inv) / 4096
    ensures IsWord32(16 * Product(Target(lsp, Prediction(prev, fg, j, MA_NP)), inv))
  {
    hide MsuColumn, LMult, Product;
    MsuIsExact(LDepositH(lsp), prev, fg, j, MA_NP);
    var temp := ExtractH(MsuColumn(LDepositH(lsp), prev, fg, j, MA_NP));
    LMultExact(temp, inv);
    assert TwoTo(3) == 8;
  }

  lemma LMultExact(x: Word16, y: Word16)
    requires y != MIN_16
    ensures LMult(x, y) == 2 * Product(x, y)
  {
    ProductBound(x, y);
  }

  lemma RoundTripBound(lsp: int, f: int, temp: int, inv: int, sum: int, p: int, ele: int)
    requires temp == Target(lsp, f) && p == Product(temp, inv) && ele == p / 4096
    requires NearInverse(sum, inv) && IsWord32(16 * p)
    ensures Near((2 * Product(ele, sum) + 2 * f) / 0x1_0000, lsp)
  {
    hide Product;
    var delta := Product(sum, inv) - 0x800_0000;
    var tau := p - 4096 * ele;
    var rho := lsp * 0x1_0000 - 2 * f - temp * 0x1_0000;
    assert 0 <= tau < 4096 && 0 <= rho < 0x1_0000;
    TripleProduct(temp, inv, sum, p, ele, tau, delta);
    DeltaBound(temp, inv, delta, p);
    TauBound(sum, tau);
  }

  lemma TripleProduct(temp: int, inv: int, sum: int, p: int, ele: int, tau: int, delta: int)
    requires p == Product(temp, inv) == 4096 * ele + tau && Product(sum, inv) == 0x800_0000 + delta
    ensures 4096 * Product(ele, sum) == 0x800_0000 * temp + Product(temp, delta) - Product(sum, tau)
  {
    calc {
      4096 * (ele * sum);
      (4096 * ele) * sum;
      (p - tau) * sum;
      p * sum - tau * sum;
      (temp * inv) * sum - sum * tau;
      temp * (sum * inv) - sum * tau;
      temp * (0x800_0000 + delta) - sum * tau;
    }
  }

  lemma DeltaBound(temp: int, inv: int, delta: int, p: int)
    requires p == Product(temp, inv) && IsWord32(16 * p) && -14 * inv <= 5 * delta <= 14 * inv && inv >= 0
    ensures -14 * 0x800_0000 <= 5 * Product(temp, delta) <= 14 * 0x800_0000
  {
    hide Product;
    var t := Abs(temp);
    ScaleBound(t, inv, delta);
    AbsProduct(temp, inv);
    AbsProduct(temp, delta);
  }

  lemma ScaleBound(t: int, inv: int, delta: int)
    requires t >= 0 && -14 * inv <= 5 * delta <= 14 * inv
    ensures -14 * Product(t, inv) <= 5 * Product(t, delta) <= 14 * Product(t, inv)
  {
    MulMono(5 * delta, 14 * inv, t);
    MulMono(-14 * inv, 5 * delta, t);
    Reassociate(t, 5, delta);
    Reassociate(t, 14, inv);
    Reassociate(t, -14, inv);
  }

  lemma Reassociate(t: int, c: int, x: int)
    ensures t * (c * x) == c * Product(t, x)
  {}

  lemma AbsProduct(x: int, y: int)
    ensures Product(x, y) == if x >= 0 then Product(Abs(x), y) else -Product(Abs(x), y)
  {}

  lemma TauBound(sum: int, tau: int)
    requires 0 <= sum <= 20000 && 0 <= tau < 4096
    ensures 0 <= Product(sum, tau) <= 20000 * 4095
  {
    MulMono(sum, 20000, tau);
    MulMono(tau, 4095, 20000);
  }

  /** For both modes of the quantiser: extracting a vector and composing it again with the same
      memory returns it to within six units, wherever nothing saturates. */
  lemma ComposeInvertsExtract(mode: int, lsp: Row, prev: seq<Row>)
    requires 0 <= mode < 2 && |lsp| == M && IsTable(prev, MA_NP)
    ensures IsTable(FG[mode], MA_NP)
    ensures var ele := Extracted(lsp, FG[mode], prev, FG_SUM_INV[mode]);
      var back := Composed(ele, FG[mode], prev, FG_SUM[mode]);
      forall j :: 0 <= j < M && NothingSaturates(lsp[j], FG_SUM_INV[mode][j], FG_SUM[mode][j], prev, FG[mode], j) ==>
        Near(back[j], lsp[j])
  {
    hide ComposeWord, ExtractWord, NothingSaturates, NearInverse, NoMinimum;
    TablesInvert(mode, 0);
    forall j | 0 <= j < M && NothingSaturates(lsp[j], FG_SUM_INV[mode][j], FG_SUM[mode][j], prev, FG[mode], j)
      ensures var ele := ExtractWord(lsp[j], FG_SUM_INV[mode][j], prev, FG[mode], j);
        Near(ComposeWord(ele, FG_SUM[mode][j], prev, FG[mode], j), lsp[j])
    {
      TablesInvert(mode, j);
      InversionError(lsp[j], FG_SUM_INV[mode][j], FG_SUM[mode][j], prev, FG[mode], j);
    }
  }
}
