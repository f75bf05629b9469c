/** The 17-bit pulse code: signs and positions chosen by the search are packed into two
    indices (ACELP_CA.C) and unpacked by Decod_ACELP (DE_ACELP.C); both sides then apply
    the same pitch sharpening. */
module PulseCode {
  import opened BasicOp
  import opened Ld8a
  import opened PulseLayout
  import opened PulseSearch

  // ----- Signs

  /** Splits dn into magnitudes and signs. */
  method ChooseSigns(dn: array<Word16>) returns (signDn: array<Word16>, signInv: array<Word16>)
    requires dn.Length == L_SUBFR
    modifies dn
    ensures fresh(signDn) && fresh(signInv) && signDn.Length == signInv.Length == L_SUBFR
    ensures forall i :: 0 <= i < L_SUBFR ==>
              && dn[i] == Wrap16(Abs(old(dn[i])))
              && signDn[i] == SignWord(old(dn[i]) >= 0) && signInv[i] == SignWord(old(dn[i]) < 0)
  {
    signDn := new Word16[L_SUBFR];
    signInv := new Word16[L_SUBFR];
    for i := 0 to L_SUBFR
      invariant forall k :: i <= k < L_SUBFR ==> dn[k] == old(dn[k])
      invariant forall k :: 0 <= k < i ==>
              && dn[k] == Wrap16(Abs(old(dn[k])))
              && signDn[k] == SignWord(old(dn[k]) >= 0) && signInv[k] == SignWord(old(dn[k]) < 0)
    {
      if dn[i] >= 0 {
        signDn[i], signInv[i] := MAX_16, MIN_16;
      } else {
        signDn[i], signInv[i] := MIN_16, MAX_16;
        var d: int := dn[i];
        dn[i] := Wrap16(-d);
      }
    }
  }

  function SignWord(positive: bool): Word16 { if positive then MAX_16 else MIN_16 }

  // The factor that turns the correlation of two unsigned pulses into that of the signed ones.
  function SignFactor(sign: seq<Word16>, p: int): Word16
    requires |sign| == L_SUBFR && 40 <= p < DIM_RR
  {
    SlotInverse(p);
    SignWord((sign[PosI(p)] < 0) == (sign[PosJ(p)] < 0))
  }

  /** Modification of the off-diagonal words of rr to take signs into account.  The source
      walks the blocks of one first track together; here each block is walked in turn. */
  method ApplySigns(rr: array<Word16>, signDn: array<Word16>, signInv: array<Word16>)
    requires rr.Length == DIM_RR && signDn.Length == signInv.Length == L_SUBFR
    requires rr != signDn && rr != signInv
    requires forall i :: 0 <= i < L_SUBFR ==>
      signDn[i] == SignWord(signDn[i] >= 0) && signInv[i] == SignWord(signDn[i] < 0)
    modifies rr
    ensures rr[..40] == old(rr[..40])
    ensures forall p :: 40 <= p < DIM_RR ==> rr[p] == Mult(old(rr[p]), SignFactor(signDn[..], p))
  {
    hide Mult, SignFactor;
    ghost var sign := signDn[..];
    for block := 0 to 9
      invariant signDn[..] == sign
      invariant forall p :: 40 + MSIZE * block <= p < DIM_RR || 0 <= p < 40 ==> rr[p] == old(rr[p])
      invariant forall p :: 40 <= p < 40 + MSIZE * block ==> rr[p] == Mult(old(rr[p]), SignFactor(sign, p))
    {
      var p0 := STEP * NB_POS + MSIZE * block;
      var i := FirstTrack(block);
      for row := 0 to NB_POS
        invariant signDn[..] == sign && i == FirstTrack(block) + STEP * row
        invariant p0 == 40 + MSIZE * block + NB_POS * row
        invariant forall p :: p0 <= p < DIM_RR || 0 <= p < 40 ==> rr[p] == old(rr[p])
        invariant forall p :: 40 <= p < p0 ==> rr[p] == Mult(old(rr[p]), SignFactor(sign, p))
      {
        var psign := if signDn[i] < 0 then signInv else signDn;
        for col := 0 to NB_POS
          invariant signDn[..] == sign && p0 == 40 + MSIZE * block + NB_POS * row + col
          invariant forall p :: p0 <= p < DIM_RR || 0 <= p < 40 ==> rr[p] == old(rr[p])
          invariant forall p :: 40 <= p < p0 ==> rr[p] == Mult(old(rr[p]), SignFactor(sign, p))
        {
          var j := SecondTrack(block) + STEP * col;
          FactorAt(sign, block, row, col, p0);
          assert sign[j] == signDn[j] && sign[i] == signDn[i];
          rr[p0] := Mult(rr[p0], psign[j]);
          p0 := p0 + 1;
        }
        i := i + STEP;
      }
    }
  }

  lemma FactorAt(sign: seq<Word16>, block: int, row: int, col: int, p: int)
    requires |sign| == L_SUBFR && 0 <= block < 9 && 0 <= row < NB_POS && 0 <= col < NB_POS
    requires p == 40 + MSIZE * block + NB_POS * row + col
    ensures var i, j := FirstTrack(block) + STEP * row, SecondTrack(block) + STEP * col;
      0 <= i < L_SUBFR && 0 <= j < L_SUBFR && SignFactor(sign, p) == SignWord((sign[i] < 0) == (sign[j] < 0))
  {
    AtBlock(p, FirstTrack(block), SecondTrack(block), row, col);
  }

  // ----- Positions and signs as indices

  function PositionIndex(ip: Pulses): int {
    ip.ip0 / 5 + 8 * (ip.ip1 / 5) + 64 * (ip.ip2 / 5) + 512 * (2 * (ip.ip3 / 5) + (ip.ip3 % 5 - 3))
  }

  function SignIndex(s: seq<bool>): int
    requires |s| == 4
  {
    (if s[0] then 1 else 0) + (if s[1] then 2 else 0) + (if s[2] then 4 else 0) + (if s[3] then 8 else 0)
  }

  function DecodedPulses(index: int): (ip: Pulses)
    ensures ip.OnTracks()
  {
    var q := index / 8 / 8 / 8;
    Pulses(5 * (index % 8), 5 * (index / 8 % 8) + 1, 5 * (index / 8 / 8 % 8) + 2, 5 * (q / 2 % 8) + 3 + q % 2)
  }

  function DecodedSigns(sign: int): (s: seq<bool>)
    ensures |s| == 4
  {
    [sign % 2 != 0, sign / 2 % 2 != 0, sign / 2 / 2 % 2 != 0, sign / 2 / 2 / 2 % 2 != 0]
  }

  function Amplitude(positive: bool): Word16 { if positive then 8191 else -8192 }

  // A zero vector with the first k pulses set.
  function Place(pos: seq<int>, s: seq<bool>, k: nat): (v: seq<Word16>)
    requires k <= |pos| == |s| && forall j :: 0 <= j < |pos| ==> 0 <= pos[j] < L_SUBFR
    ensures |v| == L_SUBFR
  {
    if k == 0 then seq(L_SUBFR, _ => 0) else Place(pos, s, k - 1)[pos[k - 1] := Amplitude(s[k - 1])]
  }

  // The codeword with four signed pulses; the tracks keep the positions apart.
  function Codeword(ip: Pulses, s: seq<bool>): (v: seq<Word16>)
    requires ip.InFrame() && |s| == 4
    ensures |v| == L_SUBFR
  {
    Place([ip.ip0, ip.ip1, ip.ip2, ip.ip3], s, 4)
  }

  /** Positions survive the index: 13 bits in one direction, on-track pulses in the other. */
  lemma PositionsRoundTrip(ip: Pulses)
    requires ip.OnTracks()
    ensures 0 <= PositionIndex(ip) < 0x2000 && DecodedPulses(PositionIndex(ip)) == ip
  {
    IndexDigits(ip.ip0 / 5, ip.ip1 / 5, ip.ip2 / 5, ip.ip3 / 5, ip.ip3 % 5 - 3);
  }

  lemma IndexDigits(a: int, b: int, c: int, e: int, j: int)
    requires 0 <= a < 8 && 0 <= b < 8 && 0 <= c < 8 && 0 <= e < 8 && 0 <= j < 2
    ensures var i := a + 8 * b + 64 * c + 512 * (2 * e + j);
      && 0 <= i < 0x2000 && i % 8 == a && i / 8 % 8 == b && i / 8 / 8 % 8 == c
      && i / 8 / 8 / 8 % 2 == j && i / 8 / 8 / 8 / 2 % 8 == e
  {
    var i := a + 8 * b + 64 * c + 512 * (2 * e + j);
    assert i / 8 == b + 8 * c + 64 * (2 * e + j);
    assert i / 8 / 8 == c + 8 * (2 * e + j);
    assert i / 8 / 8 / 8 == 2 * e + j;
  }

  lemma IndicesRoundTrip(index: int)
    requires 0 <= index < 0x2000
    ensures PositionIndex(DecodedPulses(index)) == index
  {
    var x1 := index / 8;
    var x2 := x1 / 8;
    var x3 := x2 / 8;
    var a, b, c, e, j := index % 8, x1 % 8, x2 % 8, x3 / 2 % 8, x3 % 2;
    assert x3 / 2 == e;
    FifthOf(a, 0); FifthOf(b, 1); FifthOf(c, 2); FifthOf(e, 3 + j);
  }

  lemma FifthOf(q: int, r: int)
    requires 0 <= r < 5
    ensures (5 * q + r) / 5 == q && (5 * q + r) % 5 == r
  {}

  lemma SignsRoundTrip(s: seq<bool>)
    requires |s| == 4
    ensures 0 <= SignIndex(s) < 16 && DecodedSigns(SignIndex(s)) == s
  {
    var b0, b1, b2, b3 := if s[0] then 1 else 0, if s[1] then 1 else 0, if s[2] then 1 else 0, if s[3] then 1 else 0;
    var i := b0 + 2 * b1 + 4 * b2 + 8 * b3;
    assert SignIndex(s) == i;
    assert i / 2 == b1 + 2 * b2 + 4 * b3 && i / 2 / 2 == b2 + 2 * b3 && i / 2 / 2 / 2 == b3;
  }

  // ----- The encoder's codeword and indices

  predicate SignArray(sign: seq<Word16>) {
    |sign| == L_SUBFR && forall i :: 0 <= i < L_SUBFR ==> sign[i] == MAX_16 || sign[i] == MIN_16
  }

  ghost function PulseSigns(sign: seq<Word16>, ip: Pulses): (s: seq<bool>)
    requires |sign| == L_SUBFR && ip.InFrame()
    ensures |s| == 4
  {
    [sign[ip.ip0] > 0, sign[ip.ip1] > 0, sign[ip.ip2] > 0, sign[ip.ip3] > 0]
  }

  // Sample n of the first k pulses filtered by h, without wrap-around.
  ghost function Filtered(h: seq<Word16>, pos: seq<int>, s: seq<bool>, k: nat, n: int): int
    requires |h| == L_SUBFR && k <= |pos| == |s| && 0 <= n < L_SUBFR
    requires forall j :: 0 <= j < |pos| ==> 0 <= pos[j] < L_SUBFR
  {
    if k == 0 then 0
    else if n < pos[k - 1] then Filtered(h, pos, s, k - 1, n)
    else if s[k - 1] then Filtered(h, pos, s, k - 1, n) + h[n - pos[k - 1]]
    else Filtered(h, pos, s, k - 1, n) - h[n - pos[k - 1]]
  }

  /** The filtered codeword: each pulse adds or subtracts a delayed copy of h, in plain
      16-bit arithmetic. */
  method FilterCode(ip: Pulses, signDn: array<Word16>, h: array<Word16>, y: array<Word16>)
    requires ip.InFrame() && SignArray(signDn[..]) && h.Length == L_SUBFR && y.Length == L_SUBFR
    requires y != h && y != signDn
    modifies y
    ensures forall n :: 0 <= n < L_SUBFR ==>
              y[n] == Wrap16(Filtered(h[..], [ip.ip0, ip.ip1, ip.ip2, ip.ip3], PulseSigns(signDn[..], ip), 4, n))
  {
    ghost var hs, s, pos := h[..], PulseSigns(signDn[..], ip), [ip.ip0, ip.ip1, ip.ip2, ip.ip3];
    for i := 0 to L_SUBFR
      invariant forall n :: 0 <= n < i ==> y[n] == 0
    {
      y[i] := 0;
    }
    AddPulse(h, y, ip.ip0, signDn[ip.ip0] > 0, hs, pos, s, 1);
    AddPulse(h, y, ip.ip1, signDn[ip.ip1] > 0, hs, pos, s, 2);
    AddPulse(h, y, ip.ip2, signDn[ip.ip2] > 0, hs, pos, s, 3);
    AddPulse(h, y, ip.ip3, signDn[ip.ip3] > 0, hs, pos, s, 4);
  }

  method AddPulse(h: array<Word16>, y: array<Word16>, ip: int, positive: bool,
                  ghost hs: seq<Word16>, ghost pos: seq<int>, ghost s: seq<bool>, ghost k: nat)
    requires h.Length == L_SUBFR && y.Length == L_SUBFR && y != h && hs == h[..]
    requires |pos| == |s| && (forall j :: 0 <= j < |pos| ==> 0 <= pos[j] < L_SUBFR)
    requires 0 < k <= |pos| && pos[k - 1] == ip && s[k - 1] == positive
    requires forall n :: 0 <= n < L_SUBFR ==> y[n] == Wrap16(Filtered(hs, pos, s, k - 1, n))
    modifies y
    ensures forall n :: 0 <= n < L_SUBFR ==> y[n] == Wrap16(Filtered(hs, pos, s, k, n))
  {
    hide Wrap16;
    for i := ip to L_SUBFR
      invariant h[..] == hs
      invariant forall n :: 0 <= n < i ==> y[n] == Wrap16(Filtered(hs, pos, s, k, n))
      invariant forall n :: i <= n < L_SUBFR ==> y[n] == Wrap16(Filtered(hs, pos, s, k - 1, n))
    {
      var a: int, b: int := y[i], h[i - ip];
      WrapSum(Filtered(hs, pos, s, k - 1, i), b);
      WrapSum(Filtered(hs, pos, s, k - 1, i), -b);
      y[i] := if positive then Wrap16(a + b) else Wrap16(a + -b);
    }
  }

  lemma WrapSum(x: int, b: int)
    ensures Wrap16(Wrap16(x) + b) == Wrap16(x + b)
  {
    var q, w := (x + 0x8000) / 0x1_0000, Wrap16(x);
    var k := (w + b + 0x8000) / 0x1_0000;
    Wrap16Unique(x + b, Wrap16(w + b), q + k);
  }

  /** The codeword, sign index and position index of four pulses. */
  method EmitCode(ip: Pulses, signDn: array<Word16>, cod: array<Word16>) returns (index: Word16, sign: Word16)
    requires ip.InFrame() && cod.Length == L_SUBFR && SignArray(signDn[..]) && cod != signDn
    modifies cod
    ensures cod[..] == Codeword(ip, PulseSigns(signDn[..], ip))
    ensures index == PositionIndex(ip) && sign == SignIndex(PulseSigns(signDn[..], ip))
  {
    ghost var s, pos := PulseSigns(signDn[..], ip), [ip.ip0, ip.ip1, ip.ip2, ip.ip3];
    var i0, i1, i2, i3 := signDn[ip.ip0], signDn[ip.ip1], signDn[ip.ip2], signDn[ip.ip3];
    ClearAll(cod);
    QuarterAmplitude(i0); QuarterAmplitude(i1); QuarterAmplitude(i2); QuarterAmplitude(i3);
    hide Shr;
    cod[ip.ip0] := Shr(i0, 2);
    assert cod[..] == Place(pos, s, 1);
    cod[ip.ip1] := Shr(i1, 2);
    assert cod[..] == Place(pos, s, 2);
    cod[ip.ip2] := Shr(i2, 2);
    assert cod[..] == Place(pos, s, 3);
    cod[ip.ip3] := Shr(i3, 2);
    assert cod[..] == Place(pos, s, 4);
    var i: Word16 := 0;
    if i0 > 0 { i := Add(i, 1); }
    if i1 > 0 { i := Add(i, 2); }
    if i2 > 0 { i := Add(i, 4); }
    if i3 > 0 { i := Add(i, 8); }
    sign := i;
    index := PackPositions(ip);
  }

  method ClearAll(cod: array<Word16>)
    requires cod.Length == L_SUBFR
    modifies cod
    ensures cod[..] == seq(L_SUBFR, _ => 0)
  {
    for i := 0 to L_SUBFR
      invariant forall k :: 0 <= k < i ==> cod[k] == 0
    {
      cod[i] := 0;
    }
  }

  lemma QuarterAmplitude(x: Word16)
    requires x == MAX_16 || x == MIN_16
    ensures Shr(x, 2) == Amplitude(x > 0)
  {}

  method PackPositions(ip: Pulses) returns (index: Word16)
    requires ip.InFrame()
    ensures index == PositionIndex(ip)
  {
    FifthByMult(ip.ip0); FifthByMult(ip.ip1); FifthByMult(ip.ip2); FifthByMult(ip.ip3);
    var q0, q1, q2 := Mult(ip.ip0, 6554), Mult(ip.ip1, 6554), Mult(ip.ip2, 6554);
    var i := Mult(ip.ip3, 6554);
    SmallShifts(q1); SmallShifts(q2); SmallShifts(i);
    hide Mult, Shl;
    var j := Add(i, Shl(i, 2));
    j := Sub(ip.ip3, Add(j, 3));
    var q3 := Add(Shl(i, 1), j);
    SmallShifts(q3);
    index := Add(q0, Shl(q1, 3));
    index := Add(index, Shl(q2, 6));
    index := Add(index, Shl(q3, 9));
  }

  lemma SmallShifts(x: Word16)
    requires -16 < x < 16
    ensures Shl(x, 1) == 2 * x && Shl(x, 2) == 4 * x && Shl(x, 3) == 8 * x && Shl(x, 6) == 64 * x
        && Shl(x, 9) == 512 * x
    ensures Shr(x, 0) == x
  {
    assert TwoTo(1) == 2 && TwoTo(2) == 4 && TwoTo(3) == 8 && TwoTo(6) == 64 && TwoTo(9) == 512;
  }

  // ----- The decoder

  // Decode the positions.
  method DecodePositions(index0: Word16) returns (pos: array<int>)
    ensures fresh(pos) && pos.Length == 4
    ensures var ip := DecodedPulses(index0); pos[..] == [ip.ip0, ip.ip1, ip.ip2, ip.ip3]
  {
    hide Shr, Shl, Add;
    pos := new int[4];
    var index := index0;
    var i := index % 8;
    FiveTimes(i);
    pos[0] := Add(i, Shl(i, 2));
    ShiftsDown(index);
    index := Shr(index, 3);
    i := index % 8;
    FiveTimes(i);
    i := Add(i, Shl(i, 2));
    pos[1] := Add(i, 1);
    ShiftsDown(index);
    index := Shr(index, 3);
    i := index % 8;
    FiveTimes(i);
    i := Add(i, Shl(i, 2));
    pos[2] := Add(i, 2);
    ShiftsDown(index);
    index := Shr(index, 3);
    var j := index % 2;
    ShiftsDown(index);
    index := Shr(index, 1);
    i := index % 8;
    FiveTimes(i);
    i := Add(i, Shl(i, 2));
    i := Add(i, 3);
    pos[3] := Add(i, j);
  }

  lemma FiveTimes(i: Word16)
    requires 0 <= i < 8
    ensures Add(i, Shl(i, 2)) == 5 * i
    ensures Add(5 * i, 1) == 5 * i + 1 && Add(5 * i, 2) == 5 * i + 2 && Add(5 * i, 3) == 5 * i + 3
    ensures Add(5 * i + 3, 0) == 5 * i + 3 && Add(5 * i + 3, 1) == 5 * i + 4
  {
    SmallShifts(i);
  }

  lemma ShiftsDown(x: Word16)
    ensures Shr(x, 3) == x / 8 && Shr(x, 1) == x / 2
  {
    assert TwoTo(1) == 2 && TwoTo(3) == 8;
  }

  /** Decod_ACELP, for any pair of received words. */
  method DecodeAcelp(sign0: Word16, index: Word16, cod: array<Word16>)
    requires cod.Length == L_SUBFR
    modifies cod
    ensures cod[..] == Codeword(DecodedPulses(index), DecodedSigns(sign0))
  {
    assert TwoTo(1) == 2;
    var pos := DecodePositions(index);
    ghost var ps, s := pos[..], DecodedSigns(sign0);
    hide DecodedPulses;
    ClearAll(cod);
    var sign := sign0;
    for j := 0 to 4
      invariant pos[..] == ps && cod[..] == Place(ps, s, j)
      invariant sign == [sign0, sign0 / 2, sign0 / 2 / 2, sign0 / 2 / 2 / 2, sign0 / 2 / 2 / 2 / 2][j]
    {
      var i := sign % 2;
      sign := Shr(sign, 1);
      assert pos[j] == ps[j] && (i != 0) == s[j];
      if i != 0 {
        cod[pos[j]] := 8191;
      } else {
        cod[pos[j]] := -8192;
      }
    }
  }

  /** The decoder rebuilds the searched codeword from the emitted indices. */
  lemma CodewordRoundTrip(ip: Pulses, s: seq<bool>)
    requires ip.OnTracks() && |s| == 4
    ensures Codeword(DecodedPulses(PositionIndex(ip)), DecodedSigns(SignIndex(s))) == Codeword(ip, s)
  {
    PositionsRoundTrip(ip);
    SignsRoundTrip(s);
  }

  // ----- Pitch sharpening, in place

  // Sample i of v + sharp * (sharpened v delayed by lag).
  function SharpAt(v: seq<Word16>, lag: int, sharp: Word16, i: int): Word16
    requires lag > 0 && 0 <= i < |v|
    decreases i
  {
    if i < lag then v[i] else Add(v[i], Mult(SharpAt(v, lag, sharp, i - lag), sharp))
  }

  function Sharpened(v: seq<Word16>, lag: int, sharp: Word16): seq<Word16>
    requires lag > 0
  {
    seq(|v|, i requires 0 <= i < |v| => SharpAt(v, lag, sharp, i))
  }

  /** The loop that includes the fixed-gain pitch contribution, for h[] and for code[]. */
  method Sharpen(v: array<Word16>, lag: int, sharp: Word16)
    requires v.Length == L_SUBFR && lag > 0
    modifies v
    ensures v[..] == Sharpened(old(v[..]), lag, sharp)
  {
    hide Add, Mult;
    ghost var v0 := v[..];
    if lag < L_SUBFR {
      for i := lag to L_SUBFR
        invariant forall k :: 0 <= k < i ==> v[k] == SharpAt(v0, lag, sharp, k)
        invariant forall k :: i <= k < L_SUBFR ==> v[k] == v0[k]
      {
        v[i] := Add(v[i], Mult(v[i - lag], sharp));
      }
    }
  }

  /** A sharpened sample is its own word plus the sharpened sample one lag before, weighted; the first
      samples stay as they are. */
  lemma SharpenedSample(v: seq<Word16>, lag: int, sharp: Word16, i: int)
    requires lag > 0 && 0 <= i < |v|
    ensures i < lag ==> Sharpened(v, lag, sharp)[i] == v[i]
    ensures i >= lag ==> var x := (Sharpened(v, lag, sharp)[i - lag] as int) * (sharp as int);
      x < 0x4000_0000 ==> Sharpened(v, lag, sharp)[i] == Clamp16(v[i] as int + x / 0x8000)
  {
    hide Clamp16;
    if i >= lag {
      var y := SharpAt(v, lag, sharp, i - lag);
      if (y as int) * (sharp as int) < 0x4000_0000 { MultFloor(y, sharp); }
    }
  }

  lemma MultFloor(x: Word16, y: Word16)
    requires (x as int) * (y as int) < 0x4000_0000
    ensures Mult(x, y) as int == ((x as int) * (y as int)) / 0x8000
  {
    var p := (x as int) * (y as int);
    ProductBound(x, y);
    DivBounds(p, 0x8000);
  }

  /** The codeword is zero but for the four pulses: 8191 or -8192 as their signs are. */
  lemma CodewordPulses(ip: Pulses, s: seq<bool>, n: int)
    requires ip.OnTracks() && |s| == 4 && 0 <= n < L_SUBFR
    ensures Codeword(ip, s)[n] as int
         == if n == ip.ip0 then (if s[0] then 8191 else -8192)
            else if n == ip.ip1 then (if s[1] then 8191 else -8192)
            else if n == ip.ip2 then (if s[2] then 8191 else -8192)
            else if n == ip.ip3 then (if s[3] then 8191 else -8192)
            else 0
  {
    var pos := [ip.ip0, ip.ip1, ip.ip2, ip.ip3];
    assert Place(pos, s, 2) == Place(pos, s, 1)[ip.ip1 := Amplitude(s[1])];
    assert Place(pos, s, 4) == Place(pos, s, 3)[ip.ip3 := Amplitude(s[3])];
    assert Place(pos, s, 1) == Place(pos, s, 0)[ip.ip0 := Amplitude(s[0])];
    assert Place(pos, s, 3) == Place(pos, s, 2)[ip.ip2 := Amplitude(s[2])];
  }
}
