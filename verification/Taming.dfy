/** Taming (TAMING.C): four words summarise the error that a mismatch between encoder
    and decoder could have built up in each past subframe.  The summary is proved to
    bound a per-sample error history over every run. */
module Taming {
  import opened BasicOp
  import opened Ld8a
  import opened Oper32b

  const UNIT_ERROR: Word32 := 0x4000
  const L_THRESH_ERR: Word32 := 983040000

  // tab_zone: the past subframe in which a delay falls.
  const TAB_ZONE: seq<int> := seq(40, _ => 0) + seq(40, _ => 1) + seq(40, _ => 2) + seq(33, _ => 3)

  // One step of the fixed-point recursion e = 1 + gain * e'.
  function Step(gain: Word16, e: Word32): Word32 {
    LAdd(UNIT_ERROR, LShl(Mpy32By16(LExtract(e), gain), 1))
  }

  // ----- The reference: one error value per excitation sample

  // Errors after n more samples of a subframe with the given gain and lag.
  ghost function Extend(hist: seq<Word32>, gain: Word16, lag: int, n: nat): (r: seq<Word32>)
    requires 1 <= lag <= |hist|
    ensures |r| == |hist| + n && hist <= r
  {
    if n == 0 then hist
    else
      var h := Extend(hist, gain, lag, n - 1);
      h + [Step(gain, h[|h| - lag])]
  }

  // Entry k of the record bounds the errors of all samples of the k-th past subframe.
  ghost predicate Sound(err: seq<Word32>, hist: seq<Word32>) {
    && |err| == 4 && |hist| >= 4 * L_SUBFR
    && forall i :: |hist| - 4 * L_SUBFR <= i < |hist| ==> hist[i] <= err[(|hist| - 1 - i) / L_SUBFR]
  }

  // ----- The record update

  function WorstOf(err: seq<Word32>, gain: Word16, lo: int, hi: int): Word32
    requires |err| == 4 && 0 <= lo && hi < 4
    decreases hi - lo + 1
  {
    if lo > hi then -1 else Max(Step(gain, err[hi]), WorstOf(err, gain, lo, hi - 1))
  }

  function Worst(err: seq<Word32>, gain: Word16, lag: int): Word32
    requires |err| == 4 && PIT_MIN <= lag <= PIT_MAX
  {
    if lag < L_SUBFR then
      var once := Step(gain, err[0]);
      Max(Max(-1, once), Step(gain, once))
    else
      WorstOf(err, gain, (lag - L_SUBFR) / L_SUBFR, (lag - 1) / L_SUBFR)
  }

  function Update(err: seq<Word32>, gain: Word16, lag: int): (r: seq<Word32>)
    requires |err| == 4 && PIT_MIN <= lag <= PIT_MAX
    ensures |r| == 4
  {
    [Worst(err, gain, lag)] + err[..3]
  }

  lemma {:induction false} WorstOfBounds(err: seq<Word32>, gain: Word16, lo: int, hi: int, z: int)
    requires |err| == 4 && 0 <= lo <= z <= hi < 4
    ensures Step(gain, err[z]) <= WorstOf(err, gain, lo, hi)
    decreases hi
  {
    hide Step;
    if z < hi { WorstOfBounds(err, gain, lo, hi - 1, z); }
  }

  // For a non-negative gain a larger error can only grow into a larger one.
  lemma StepMonotone(gain: Word16, e: Word32, f: Word32)
    requires gain >= 0 && e <= f
    ensures Step(gain, e) <= Step(gain, f)
  {
    StepClosedForm(gain, e);
    StepClosedForm(gain, f);
    MulMono(e / 2, f / 2, gain);
    DivMono((e / 2) * gain, (f / 2) * gain, 0x8000);
  }

  /** A step is the unit error in Q14 plus the gain in Q14 times the error, rounded down to a multiple of
      four without the lowest bit of the error, clamped. */
  lemma StepClosedForm(gain: Word16, e: Word32)
    requires gain >= 0
    ensures Step(gain, e) == Clamp32(UNIT_ERROR + Clamp32(4 * (((e / 2) * gain) / 0x8000)))
  {
    var m: int := Mpy32By16(LExtract(e), gain);
    HalfProduct(gain, e);
    assert TwoTo(1) == 2;
    assert m == 2 * (((e / 2) * gain) / 0x8000);
  }

  lemma HalfProduct(gain: Word16, e: Word32)
    requires gain >= 0
    ensures Mpy32By16(LExtract(e), gain) == 2 * (((e / 2) * gain) / 0x8000)
  {
    hide LExtract, Mpy32By16, LComp;
    ExtractDropsOneBit(e);
    SplitProductOfHalf(LExtract(e), gain, e / 2);
  }

  lemma SplitProductOfHalf(d: Dpf, gain: Word16, half: int)
    requires gain >= 0 && 0 <= d.lo && half == d.hi * 0x8000 + d.lo
    ensures Mpy32By16(d, gain) == 2 * ((half * gain) / 0x8000)
  {
    Mpy32By16Parts(d, gain);
    hide *;
    SplitHalf(d.hi, d.lo, gain);
  }

  lemma SplitHalf(hi: int, lo: int, gain: int)
    ensures ((hi * 0x8000 + lo) * gain) / 0x8000 == hi * gain + (lo * gain) / 0x8000
  {
    assert (hi * 0x8000 + lo) * gain == 0x8000 * (hi * gain) + lo * gain;
    var q := (lo * gain) / 0x8000;
    assert 0x8000 * q <= lo * gain < 0x8000 * q + 0x8000;
    DivUnique((hi * 0x8000 + lo) * gain, 0x8000, hi * gain + q);
  }

  /** One subframe: after the update the record bounds the extended error history. */
  lemma UpdateKeepsSound(err: seq<Word32>, hist: seq<Word32>, gain: Word16, lag: int)
    requires Sound(err, hist) && gain >= 0 && PIT_MIN <= lag <= PIT_MAX
    ensures Sound(Update(err, gain, lag), Extend(hist, gain, lag, L_SUBFR))
  {
    hide Step;
    var h := Extend(hist, gain, lag, L_SUBFR);
    var err' := Update(err, gain, lag);
    forall i | |h| - 4 * L_SUBFR <= i < |h|
      ensures h[i] <= err'[(|h| - 1 - i) / L_SUBFR]
    {
      if i >= |hist| {
        NewSampleBound(err, hist, gain, lag, i - |hist|);
      } else {
        assert h[i] == hist[i];
        assert (|h| - 1 - i) / L_SUBFR == (|hist| - 1 - i) / L_SUBFR + 1;
      }
    }
  }

  // Each new sample j depends on the sample one lag back, which lies in an old
  // subframe, or in this one when lag <= j; then that one lies in the previous subframe.
  lemma NewSampleBound(err: seq<Word32>, hist: seq<Word32>, gain: Word16, lag: int, j: nat)
    requires Sound(err, hist) && gain >= 0 && PIT_MIN <= lag <= PIT_MAX && j < L_SUBFR
    ensures Extend(hist, gain, lag, L_SUBFR)[|hist| + j] <= Worst(err, gain, lag)
  {
    hide Step, Worst, Extend;
    ExtendAt(hist, gain, lag, L_SUBFR, j);
    if j < lag {
      OldSampleBound(err, hist, gain, lag, j);
    } else {
      ExtendAt(hist, gain, lag, L_SUBFR, j - lag);
      var i := |hist| + j - 2 * lag;
      assert (|hist| - 1 - i) / L_SUBFR == 0;
      RepeatedSampleBound(err, hist, gain, lag, hist[i]);
    }
  }

  lemma RepeatedSampleBound(err: seq<Word32>, hist: seq<Word32>, gain: Word16, lag: int, e: Word32)
    requires |err| == 4 && gain >= 0 && PIT_MIN <= lag < L_SUBFR && e <= err[0]
    ensures Step(gain, Step(gain, e)) <= Worst(err, gain, lag)
  {
    hide Step;
    StepMonotone(gain, e, err[0]);
    StepMonotone(gain, Step(gain, e), Step(gain, err[0]));
  }

  lemma OldSampleBound(err: seq<Word32>, hist: seq<Word32>, gain: Word16, lag: int, j: nat)
    requires Sound(err, hist) && gain >= 0 && PIT_MIN <= lag <= PIT_MAX && j < L_SUBFR && j < lag
    ensures Step(gain, hist[|hist| + j - lag]) <= Worst(err, gain, lag)
  {
    hide Step;
    var i := |hist| + j - lag;
    var z := (lag - j - 1) / L_SUBFR;
    assert hist[i] <= err[z];
    StepMonotone(gain, hist[i], err[z]);
    if lag >= L_SUBFR {
      WorstOfBounds(err, gain, (lag - L_SUBFR) / L_SUBFR, (lag - 1) / L_SUBFR, z);
    }
  }

  lemma {:induction false} ExtendAt(hist: seq<Word32>, gain: Word16, lag: int, n: nat, j: nat)
    requires 1 <= lag <= |hist| && j < n
    ensures var h := Extend(hist, gain, lag, n);
      h[|hist| + j] == Step(gain, h[|hist| + j - lag])
  {
    hide Step;
    if j < n - 1 { ExtendAt(hist, gain, lag, n - 1, j); }
  }

  // ----- Whole runs

  datatype Subframe = Subframe(gain: Word16, lag: int) {
    ghost predicate Valid() { gain >= 0 && PIT_MIN <= lag <= PIT_MAX }
  }

  // The record after the first k subframes of a run.
  function RunRecord(run: seq<Subframe>, k: nat): (err: seq<Word32>)
    requires k <= |run| && forall i :: 0 <= i < |run| ==> run[i].Valid()
    ensures |err| == 4
  {
    hide *;
    if k == 0 then [UNIT_ERROR, UNIT_ERROR, UNIT_ERROR, UNIT_ERROR]
    else InRange(run[k - 1]); Update(RunRecord(run, k - 1), run[k - 1].gain, run[k - 1].lag)
  }

  ghost function RunHistory(run: seq<Subframe>, k: nat): (hist: seq<Word32>)
    requires k <= |run| && forall i :: 0 <= i < |run| ==> run[i].Valid()
    ensures |hist| >= 4 * L_SUBFR
  {
    hide *;
    if k == 0 then seq(4 * L_SUBFR, _ => UNIT_ERROR)
    else InRange(run[k - 1]); Extend(RunHistory(run, k - 1), run[k - 1].gain, run[k - 1].lag, L_SUBFR)
  }

  lemma InRange(s: Subframe)
    requires s.Valid()
    ensures s.gain >= 0 && PIT_MIN <= s.lag <= PIT_MAX
  {}

  /** Over every run, from the initial state, the record bounds the per-sample errors. */
  lemma {:induction false} RunIsSound(run: seq<Subframe>, k: nat)
    requires k <= |run| && forall i :: 0 <= i < |run| ==> run[i].Valid()
    ensures Sound(RunRecord(run, k), RunHistory(run, k))
  {
    hide Step, Update, Extend;
    if k > 0 {
      RunIsSound(run, k - 1);
      UpdateKeepsSound(RunRecord(run, k - 1), RunHistory(run, k - 1), run[k - 1].gain, run[k - 1].lag);
    }
  }

  /** The samples the interpolation filter reads for a lag t1 (rounded up): back to t1 + 9
      and up to t1 - 49 samples before the subframe.  If every zone of the record that
      test_err scans is at most the threshold, so is the error of every past sample read. */
  lemma ScannedZonesCoverWindow(err: seq<Word32>, hist: seq<Word32>, t1: int, zone1: int, zone2: int)
    requires Sound(err, hist) && PIT_MIN <= t1 <= PIT_MAX + 1
    requires zone1 == Max(t1 - (L_SUBFR + L_INTER10), 0) / L_SUBFR
    requires zone2 == (t1 + L_INTER10 - 2) / L_SUBFR
    requires forall z :: zone1 <= z <= zone2 ==> err[z] <= L_THRESH_ERR
    ensures forall i :: |hist| - (t1 + L_INTER10 - 1) <= i < |hist| && i <= |hist| + L_SUBFR + L_INTER10 - 1 - t1
              ==> hist[i] <= L_THRESH_ERR
  {
    forall i | |hist| - (t1 + L_INTER10 - 1) <= i < |hist| && i <= |hist| + L_SUBFR + L_INTER10 - 1 - t1
      ensures hist[i] <= L_THRESH_ERR
    {
      var z := (|hist| - 1 - i) / L_SUBFR;
      assert zone1 <= z <= zone2;
    }
  }

  /** The static record L_exc_err, with the history it summarises as ghost state. */
  class TamingRecord {
    var excErr: array<Word32>
    ghost var history: seq<Word32>

    ghost predicate Valid()
      reads this, excErr
    {
      Sound(excErr[..], history)
    }

    // Init_exc_err
    constructor ()
      ensures Valid() && fresh(excErr)
      ensures excErr[..] == RunRecord([], 0) && history == RunHistory([], 0)
    {
      excErr := new Word32[4];
      history := seq(4 * L_SUBFR, _ => UNIT_ERROR);
      new;
      for i := 0 to 4
        invariant excErr.Length == 4 && fresh(excErr) && history == seq(4 * L_SUBFR, _ => UNIT_ERROR)
        invariant forall k :: 0 <= k < i ==> excErr[k] == UNIT_ERROR
      {
        excErr[i] := UNIT_ERROR;
      }
    }

    /** test_err: 1 exactly when a zone the interpolation can reach exceeds the threshold;
        when it is 0, no past sample the filter reads has an error above it. */
    method TestErr(lag: Word16, frac: Word16) returns (flag: Word16)
      requires Valid() && PIT_MIN <= lag <= PIT_MAX
      ensures var t1 := if frac > 0 then lag + 1 else lag;
        && (flag == 0 || flag == 1)
        && (flag == 1 <==> exists z :: Max(t1 - 50, 0) / 40 <= z <= (t1 + 8) / 40 && excErr[z] > L_THRESH_ERR)
        && (flag == 0 ==> forall i :: |history| - t1 - 9 <= i < |history| && i <= |history| + 49 - t1 ==>
          history[i] <= L_THRESH_ERR)
    {
      hide Step;
      var t1 := if frac > 0 then Add(lag, 1) else lag;
      var i: int := Sub(t1, L_SUBFR + L_INTER10);
      if i < 0 { i := 0; }
      var zone1 := TAB_ZONE[i];
      i := Add(t1, L_INTER10 - 2);
      var zone2 := TAB_ZONE[i];
      var maxloc: Word32 := -1;
      flag := 0;
      i := zone2;
      while i >= zone1
        invariant 0 <= zone1 == Max(t1 - 50, 0) / 40 <= zone2 == (t1 + 8) / 40 <= 3
        invariant zone1 - 1 <= i <= zone2
        invariant forall z :: i < z <= zone2 ==> excErr[z] <= maxloc
        invariant maxloc == -1 || exists z :: i < z <= zone2 && excErr[z] == maxloc
      {
        if LSub(excErr[i], maxloc) > 0 { maxloc := excErr[i]; }
        i := i - 1;
      }
      if LSub(maxloc, L_THRESH_ERR) > 0 { flag := 1; }
      if flag == 0 {
        ScannedZonesCoverWindow(excErr[..], history, t1, zone1, zone2);
      }
    }

    // First half of update_exc_err: the worst error the new subframe can hold.
    method WorstCase(gain: Word16, lag: Word16) returns (worst: Word32)
      requires excErr.Length == 4 && PIT_MIN <= lag <= PIT_MAX
      ensures worst == Worst(excErr[..], gain, lag)
    {
      hide Step;
      worst := -1;
      var n: int := Sub(lag, L_SUBFR);
      if n < 0 {
        var temp := Step(gain, excErr[0]);
        if LSub(temp, worst) > 0 { worst := temp; }
        temp := Step(gain, temp);
        if LSub(temp, worst) > 0 { worst := temp; }
      } else {
        var zone1 := TAB_ZONE[n];
        var zone2 := TAB_ZONE[Sub(lag, 1)];
        var i := zone1;
        while i <= zone2
          invariant zone1 == (lag - 40) / 40 && zone2 == (lag - 1) / 40
          invariant zone1 <= i <= zone2 + 1
          invariant worst == WorstOf(excErr[..], gain, zone1, i - 1)
        {
          var temp := Step(gain, excErr[i]);
          if LSub(temp, worst) > 0 { worst := temp; }
          i := i + 1;
        }
      }
    }

    /** update_exc_err for a quantised (hence non-negative) pitch gain. */
    method UpdateExcErr(gain: Word16, lag: Word16)
      requires Valid() && gain >= 0 && PIT_MIN <= lag <= PIT_MAX
      modifies this`history, excErr
      ensures Valid()
      ensures excErr[..] == Update(old(excErr[..]), gain, lag)
      ensures history == Extend(old(history), gain, lag, L_SUBFR)
    {
      hide Step, Worst, Extend;
      ghost var err, hist := excErr[..], Extend(history, gain, lag, L_SUBFR);
      UpdateKeepsSound(err, history, gain, lag);
      history := hist;
      var worst := WorstCase(gain, lag);
      var i := 3;
      while i >= 1
        invariant 0 <= i <= 3
        invariant forall k :: 0 <= k <= i ==> excErr[k] == err[k]
        invariant forall k :: i < k < 4 ==> excErr[k] == err[k - 1]
        invariant history == hist
      {
        excErr[i] := excErr[i - 1];
        i := i - 1;
      }
      excErr[0] := worst;
      assert excErr[..] == Update(err, gain, lag);
    }
  }
}
