/** Frame by frame: the memories that the coder (COD_LD8A.C) and the decoder (DEC_LD8A.C,
    DECODER.C) keep, and how they move from the 80-bit frames alone.  What the coder's searches
    settle on is a parameter: the results hold for every outcome. */
module Codec {
  import opened BasicOp
  import opened Ld8a
  import opened Bits
  import opened LspPredictor
  import opened LspQuant
  import opened Gain
  import opened PitchLag
  import opened PulseSearch
  import opened PulseCode

  const SHARPMIN: Word16 := 3277
  const SHARPMAX: Word16 := 13017
  const OLD_T0: Word16 := 60
  const LSP_OLD: Row := [30000, 26000, 21000, 15000, 8000, 0, -8000, -15000, -21000, -26000]

  // The codebooks, and the conversion from frequencies to line spectral pairs.
  datatype Tables = Tables(cb: Codebooks, cosine: Row -> Row)

  // ----- What the coder decides

  datatype SubChoice = SubChoice(lag: Lag, ip: Pulses, signs: seq<bool>, i1: nat, i2: nat) {
    predicate Valid() { ip.OnTracks() && |signs| == 4 && i1 < NCODE1 && i2 < NCODE2 }
  }

  datatype Choice = Choice(code: Code, first: SubChoice, second: SubChoice) {
    predicate Valid() {
      && code.Valid() && first.Valid() && second.Valid()
      && FirstLag(first.lag) && SecondLag(second.lag, SecondRange(first.lag.T0))
    }
  }

  lemma LagIndices(c: Choice)
    requires c.Valid()
    ensures 0 < FirstIndex(c.first.lag) < 0x100
    ensures 0 < SecondIndex(c.second.lag, SecondRange(c.first.lag.T0)) < 0x20
  {}

  // The eleven parameters of a frame, in the order of the bit stream.
  function Params(c: Choice): (prm: seq<Word16>)
    requires c.Valid()
    ensures |prm| == |BITSNO|
  {
    hide PositionIndex, SignIndex, Index, FirstWord, SecondWord;
    LagIndices(c);
    PositionsRoundTrip(c.first.ip);
    PositionsRoundTrip(c.second.ip);
    SignsRoundTrip(c.first.signs);
    SignsRoundTrip(c.second.signs);
    [FirstWord(c.code), SecondWord(c.code),
     FirstIndex(c.first.lag), Parity(FirstIndex(c.first.lag)),
     PositionIndex(c.first.ip), SignIndex(c.first.signs), Index(c.first.i1, c.first.i2),
     SecondIndex(c.second.lag, SecondRange(c.first.lag.T0)),
     PositionIndex(c.second.ip), SignIndex(c.second.signs), Index(c.second.i1, c.second.i2)]
  }

  // The 80 words sent.
  function Sent(c: Choice): (ws: seq<Word16>)
    requires c.Valid()
    ensures |ws| == Offset(BITSNO, |BITSNO|)
  {
    Payload(Params(c), BITSNO, |BITSNO|)
  }

  // ----- What both sides hold

  datatype Voice = Voice(past: seq<Word16>, sharp: Word16, oldT0: Word16, gains: Gains) {
    predicate Valid() { |past| == 4 && 0 < oldT0 <= PIT_MAX + 1 }
  }

  datatype Subframe = Subframe(lag: Lag, code: seq<Word16>, gains: Gains)

  datatype CoderState = CoderState(prev: seq<Row>, lspOldQ: Row, past: seq<Word16>, sharp: Word16) {
    predicate Valid() { IsTable(prev, MA_NP) && |past| == 4 }
  }

  datatype DecoderState = DecoderState(lsp: LspState, lspOld: Row, voice: Voice) {
    predicate Valid() { lsp.Valid() && voice.Valid() }
  }

  function CoderStart(): (e: CoderState)
    ensures e.Valid()
  {
    CoderState(InitialMemory(), LSP_OLD, InitialEnergies(), SHARPMIN)
  }

  function DecoderStart(): (d: DecoderState)
    ensures d.Valid()
  {
    DecoderState(InitialState(), LSP_OLD, Voice(InitialEnergies(), SHARPMIN, OLD_T0, Gains(0, 0)))
  }

  function SharpOf(pit: Word16): (sharp: Word16)
    ensures SHARPMIN <= sharp <= SHARPMAX
    ensures SHARPMIN <= pit <= SHARPMAX ==> sharp == pit
    ensures pit > SHARPMAX ==> sharp == SHARPMAX
    ensures pit < SHARPMIN ==> sharp == SHARPMIN
  {
    if pit > SHARPMAX then SHARPMAX else if pit < SHARPMIN then SHARPMIN else pit
  }

  // ----- The coder

  // The excitation vector of one subframe, with its pitch contribution.
  function CodedVector(sharp: Word16, c: SubChoice): seq<Word16>
    requires c.Valid() && c.lag.T0 > 0
  {
    Sharpened(Codeword(c.ip, c.signs), c.lag.T0, Shl(sharp, 1))
  }

  function CodedSubframe(e: CoderState, c: SubChoice): (r: (CoderState, Subframe))
    requires e.Valid() && c.Valid() && c.lag.T0 > 0
    ensures r.0.Valid() && r.0.prev == e.prev && r.0.lspOldQ == e.lspOldQ
  {
    hide Sharpened, Codeword, Reconstructed, Remembered;
    var code := CodedVector(e.sharp, c);
    var g := Reconstructed(e.past, code, c.i1, c.i2);
    (e.(past := Remembered(e.past, c.i1, c.i2), sharp := SharpOf(g.pit)), Subframe(c.lag, code, g))
  }

  // The memories once the spectrum is quantised.
  function WithSpectrum(t: Tables, e: CoderState, code: Code): (r: CoderState)
    requires t.cb.Valid() && e.Valid() && code.Valid()
    ensures r.Valid()
  {
    hide Quantised, Elementary, Pushed;
    PushedIsTable(Elementary(t.cb, code), e.prev);
    e.(prev := Pushed(Elementary(t.cb, code), e.prev), lspOldQ := t.cosine(Quantised(t.cb, code, e.prev)))
  }

  function CodedFrame(t: Tables, e: CoderState, c: Choice): (r: (CoderState, seq<Subframe>))
    requires t.cb.Valid() && e.Valid() && c.Valid()
    ensures r.0.Valid()
  {
    hide CodedSubframe, WithSpectrum;
    LagIndices(c);
    var e0 := WithSpectrum(t, e, c.code);
    var (e1, s1) := CodedSubframe(e0, c.first);
    var (e2, s2) := CodedSubframe(e1, c.second);
    (e2, [s1, s2])
  }

  // ----- The decoder

  // Random pulse indices, drawn in bad frames only.
  datatype Random = Random(pos: Word16, sign: Word16)

  // The lag of a subframe: the decoded one, or the last one again and next time one more.
  function Tracked(v: Voice, ok: bool, lag: Lag): (r: (Voice, Lag))
    requires v.Valid() && (ok ==> 0 < lag.T0 <= PIT_MAX + 1)
    ensures r.0.Valid() && 0 < r.1.T0 <= PIT_MAX + 1
    ensures r.0.past == v.past && r.0.sharp == v.sharp && r.0.gains == v.gains
  {
    if ok then (v.(oldT0 := lag.T0), lag)
    else (v.(oldT0 := if Add(v.oldT0, 1) > PIT_MAX then PIT_MAX else Add(v.oldT0, 1)), Lag(v.oldT0, 0))
  }

  function Innovated(v: Voice, lag: Lag, bfi: bool, pos: Word16, sign: Word16, index: Word16): (r: (Voice, Subframe))
    requires v.Valid() && lag.T0 > 0 && 0 <= index < 128
    ensures r.0.Valid() && r.0.oldT0 == v.oldT0
  {
    hide Sharpened, Codeword, Reconstructed, Remembered, Concealed, Attenuated, First, Second, DecodedPulses,
      DecodedSigns;
    var code := Sharpened(Codeword(DecodedPulses(pos), DecodedSigns(sign)), lag.T0, Shl(v.sharp, 1));
    var g := if bfi then Concealed(v.gains) else Reconstructed(v.past, code, First(index), Second(index));
    var past := if bfi then Shifted(v.past, Attenuated(v.past)) else Remembered(v.past, First(index), Second(index));
    (Voice(past, SharpOf(g.pit), v.oldT0, g), Subframe(lag, code, g))
  }

  // Parameters as the bit stream delivers them.
  predicate Delivered(p: seq<Word16>) {
    |p| == |BITSNO| && forall i :: 0 <= i < |p| ==> 0 <= p[i] < TwoTo(BITSNO[i])
  }

  lemma DeliveredRanges(p: seq<Word16>)
    requires Delivered(p)
    ensures |p| == 11 && 0 <= p[2] < 0x100 && 0 <= p[3] < 2 && 0 <= p[6] < 128 && 0 <= p[7] < 32 && 0 <= p[10] < 128
  {}

  lemma FirstLagRange(index: Word16)
    requires 0 <= index < 0x100
    ensures 0 < DecodedFirst(index).T0 <= PIT_MAX
  {
    hide DecodedFirst;
    DecodedFirstClosed(index);
  }

  lemma SecondLagRange(index: Word16, T0: Word16)
    requires 0 <= index < 32 && 0 < T0 <= PIT_MAX + 1
    ensures 0 < DecodedSecond(index, T0).T0 <= PIT_MAX + 1
  {
    ThirdByMult(index + 2);
  }

  function DecodedLags(v: Voice, p: seq<Word16>, bfi: bool): (r: (Voice, Lag))
    requires v.Valid() && Delivered(p)
    ensures r.0.Valid() && 0 < r.1.T0 <= PIT_MAX + 1
    ensures r.0.past == v.past && r.0.sharp == v.sharp && r.0.gains == v.gains
  {
    hide DecodedFirst, Parity;
    DeliveredRanges(p);
    FirstLagRange(p[2]);
    Tracked(v, !bfi && p[3] == Parity(p[2]), DecodedFirst(p[2]))
  }

  function DecodedVoice(v: Voice, p: seq<Word16>, bfi: bool, r1: Random, r2: Random): (r: (Voice, seq<Subframe>))
    requires v.Valid() && Delivered(p)
    ensures r.0.Valid()
  {
    hide DecodedSecond, DecodedLags, Innovated;
    DeliveredRanges(p);
    var (v1, lag1) := DecodedLags(v, p, bfi);
    var (v2, s1) := Innovated(v1, lag1, bfi, if bfi then r1.pos else p[4], if bfi then r1.sign else p[5], p[6]);
    SecondLagRange(p[7], lag1.T0);
    var (v3, lag2) := Tracked(v2, !bfi, DecodedSecond(p[7], lag1.T0));
    var (v4, s2) := Innovated(v3, lag2, bfi, if bfi then r2.pos else p[8], if bfi then r2.sign else p[9], p[10]);
    (v4, [s1, s2])
  }

  function DecodedFrame(t: Tables, d: DecoderState, p: seq<Word16>, bfi: bool, r1: Random, r2: Random)
      : (r: (DecoderState, seq<Subframe>))
    requires t.cb.Valid() && d.Valid() && Delivered(p)
    ensures r.0.Valid()
  {
    hide DecodedVoice, Received, Erased, ReceivedCode;
    var lsp := if bfi then Erased(d.lsp) else Received(t.cb, d.lsp, ReceivedCode(p[0], p[1]));
    var (v, out) := DecodedVoice(d.voice, p, bfi, r1, r2);
    (DecoderState(lsp, t.cosine(lsp.lsp), v), out)
  }

  // ----- Through the bit stream

  lemma {:induction false} FieldRange(ws: seq<Word16>, i: nat)
    requires |ws| == Offset(BITSNO, |BITSNO|) && i < |BITSNO|
    ensures 0 <= Field(ws, BITSNO, i) < TwoTo(BITSNO[i])
  {
    OffsetMonotone(BITSNO, i + 1);
    var bits := ws[Offset(BITSNO, i)..Offset(BITSNO, i + 1)];
    BitValueBound(bits);
    WidthBound(i);
    TwoToMono(BITSNO[i], 13);
    assert TwoTo(13) == 0x2000;
    Wrap16Unique(BitValue(bits), BitValue(bits), 0);
  }

  lemma WidthBound(i: nat)
    requires i < |BITSNO|
    ensures BITSNO[i] <= 13
  {}

  lemma UnpackedIsDelivered(ws: seq<Word16>)
    requires |ws| == Offset(BITSNO, |BITSNO|)
    ensures Delivered(Parameters(ws, BITSNO))
  {
    forall i | 0 <= i < |BITSNO| ensures 0 <= Parameters(ws, BITSNO)[i] < TwoTo(BITSNO[i]) {
      FieldRange(ws, i);
    }
  }

  lemma ParamsFit(c: Choice)
    requires c.Valid()
    ensures Delivered(Params(c))
  {
    hide PositionIndex, SignIndex, Index, FirstWord, SecondWord, FirstIndex, SecondIndex, Parity, TwoTo,
      DecodedPulses, DecodedSigns, First, Second, ReceivedCode;
    LagIndices(c);
    CodeRoundTrip(c.code);
    PositionsRoundTrip(c.first.ip);
    PositionsRoundTrip(c.second.ip);
    SignsRoundTrip(c.first.signs);
    SignsRoundTrip(c.second.signs);
    IndexRoundTrip(c.first.i1, c.first.i2);
    IndexRoundTrip(c.second.i1, c.second.i2);
    ParityBit(FirstIndex(c.first.lag));
    Widths();
  }

  lemma ParityBit(x: Word16)
    ensures 0 <= Parity(x) < 2
  {}

  lemma Widths()
    ensures TwoTo(1) == 2 && TwoTo(4) == 16 && TwoTo(5) == 32 && TwoTo(7) == 128
    ensures TwoTo(8) == 256 && TwoTo(10) == 1024 && TwoTo(13) == 0x2000
  {
    assert TwoTo(4) == 16;
    assert TwoTo(7) == 8 * TwoTo(4);
    assert TwoTo(10) == 8 * TwoTo(7);
  }

  /** An intact frame is not taken for an erased one, and its parameters are those of the coder. */
  lemma IntactFrame(c: Choice)
    requires c.Valid()
    ensures Delivered(Params(c)) && 0 !in Sent(c) && Parameters(Sent(c), BITSNO) == Params(c)
  {
    ParamsFit(c);
    PackedFrameIsGood(Params(c));
    hide Params, Payload, Parameters, TwoTo;
    UnpackInvertsPack(Params(c), BITSNO);
    var prm := Params(c);
    forall i | 0 <= i < |prm| ensures Wrap16(prm[i] % TwoTo(BITSNO[i])) == prm[i] {
      Unreduced(prm[i], TwoTo(BITSNO[i]));
    }
  }

  lemma Unreduced(x: Word16, d: int)
    requires 0 <= x < d
    ensures Wrap16(x % d) == x
  {
    DivUnique(x, d, 0);
    ModUnique(x, d, 0, x);
  }

  // One frame of the receiving loop, from its 80 words.
  function DecodedWords(t: Tables, d: DecoderState, ws: seq<Word16>, r1: Random, r2: Random)
      : (r: (DecoderState, seq<Subframe>))
    requires t.cb.Valid() && d.Valid() && |ws| == Offset(BITSNO, |BITSNO|)
    ensures r.0.Valid()
  {
    hide DecodedFrame;
    UnpackedIsDelivered(ws);
    DecodedFrame(t, d, Parameters(ws, BITSNO), 0 in ws, r1, r2)
  }

  // ----- One intact frame

  // One subframe of it, whatever the memories.
  function AfterSubframe(v: Voice, c: SubChoice): (r: (Voice, Subframe))
    requires v.Valid() && c.Valid() && 0 < c.lag.T0 <= PIT_MAX + 1
    ensures r.0.Valid()
  {
    hide CodedVector, Reconstructed, Remembered;
    var code := CodedVector(v.sharp, c);
    var g := Reconstructed(v.past, code, c.i1, c.i2);
    (Voice(Remembered(v.past, c.i1, c.i2), SharpOf(g.pit), c.lag.T0, g), Subframe(c.lag, code, g))
  }

  lemma IntactSubframe(v: Voice, c: SubChoice)
    requires v.Valid() && c.Valid() && 0 < c.lag.T0 <= PIT_MAX + 1
    ensures 0 <= Index(c.i1, c.i2) < 128
    ensures Innovated(v.(oldT0 := c.lag.T0), c.lag, false, PositionIndex(c.ip), SignIndex(c.signs), Index(c.i1, c.i2))
            == AfterSubframe(v, c)
  {
    hide Sharpened, Codeword, Reconstructed, Remembered, PositionIndex, SignIndex, Index, First, Second,
      DecodedPulses, DecodedSigns;
    CodewordRoundTrip(c.ip, c.signs);
    IndexRoundTrip(c.i1, c.i2);
  }

  // The memories after the two subframes of an intact frame.
  function AfterVoice(v: Voice, c: Choice): (r: (Voice, seq<Subframe>))
    requires v.Valid() && c.Valid()
    ensures r.0.Valid() && |r.1| == 2
  {
    hide AfterSubframe;
    SecondRoundTrip(c.first.lag.T0, c.second.lag);
    var (v1, s1) := AfterSubframe(v, c.first);
    var (v2, s2) := AfterSubframe(v1, c.second);
    (v2, [s1, s2])
  }

  lemma IntactVoice(v: Voice, c: Choice, r1: Random, r2: Random)
    requires v.Valid() && c.Valid() && Delivered(Params(c))
    ensures DecodedVoice(v, Params(c), false, r1, r2) == AfterVoice(v, c)
  {
    hide AfterSubframe, PositionIndex, SignIndex, Index, FirstWord, SecondWord, FirstIndex, SecondIndex, Parity,
      DecodedFirst, DecodedSecond, Innovated, TwoTo, Delivered;
    FirstRoundTrip(c.first.lag);
    SecondRoundTrip(c.first.lag.T0, c.second.lag);
    DeliveredRanges(Params(c));
    var p := Params(c);
    var (v1, lag1) := DecodedLags(v, p, false);
    assert v1 == v.(oldT0 := c.first.lag.T0) && lag1 == c.first.lag;
    IntactSubframe(v, c.first);
    var (v2, s1) := AfterSubframe(v, c.first);
    assert (v2, s1) == Innovated(v1, lag1, false, p[4], p[5], p[6]);
    SecondLagRange(p[7], lag1.T0);
    var (v3, lag2) := Tracked(v2, true, DecodedSecond(p[7], lag1.T0));
    assert v3 == v2.(oldT0 := c.second.lag.T0) && lag2 == c.second.lag;
    IntactSubframe(v2, c.second);
  }

  predicate Agree(e: CoderState, d: DecoderState) {
    e.prev == d.lsp.prev && e.lspOldQ == d.lspOld && e.past == d.voice.past && e.sharp == d.voice.sharp
  }

  // The k newest entries of two memories are the same.
  predicate Same<T(==)>(p: seq<T>, q: seq<T>, k: nat)
    requires k <= |p| && k <= |q|
  {
    p[..k] == q[..k]
  }

  // Pushing the same entry onto two memories makes one more of their entries the same, and
  // no more than that.
  lemma PushSame(x: Row, p: seq<Row>, q: seq<Row>, k: nat)
    requires |p| == |q| == MA_NP && k < MA_NP
    ensures Same(Pushed(x, p), Pushed(x, q), k + 1) <==> Same(p, q, k)
  {
    assert Pushed(x, p)[1..k + 1] == p[..k] && Pushed(x, q)[1..k + 1] == q[..k];
    assert Pushed(x, p)[..k + 1] == [x] + p[..k] && Pushed(x, q)[..k + 1] == [x] + q[..k];
  }

  lemma ShiftSame(x: Word16, p: seq<Word16>, q: seq<Word16>, k: nat)
    requires |p| == |q| == 4 && k < 4
    ensures Same(Shifted(p, x), Shifted(q, x), k + 1) <==> Same(p, q, k)
  {
    assert Shifted(p, x)[1..k + 1] == p[..k] && Shifted(q, x)[1..k + 1] == q[..k];
    assert Shifted(p, x)[..k + 1] == [x] + p[..k] && Shifted(q, x)[..k + 1] == [x] + q[..k];
  }

  // The same subframe on the two sides, whatever their memories.
  lemma SubframeAgrees(e: CoderState, v: Voice, c: SubChoice, k: nat)
    requires e.Valid() && v.Valid() && c.Valid() && 0 < c.lag.T0 <= PIT_MAX + 1 && k < 4
    ensures var (e', s) := CodedSubframe(e, c);
      var (v', u) := AfterSubframe(v, c);
      && e'.sharp == v'.sharp && s.lag == u.lag && s.gains.pit == u.gains.pit
      && (Same(e.past, v.past, k) <==> Same(e'.past, v'.past, k + 1))
      && (e.past == v.past && e.sharp == v.sharp ==> s == u)
  {
    hide CodedVector, FromEnergy, LogEnergy, PitchOf, Factor, CodeGain, Same, Shifted, CodeEnergy;
    ShiftSame(LogEnergy(Factor(c.i1, c.i2)), e.past, v.past, k);
  }

  /** One intact frame, whatever the memories on the two sides: sharpening, lags and pitch gains
      are the same afterwards, one more spectral vector and two more energies are the same,
      and sides that agreed agree again and have decoded the same lags, gains and codewords. */
  lemma GoodFrame(t: Tables, e: CoderState, d: DecoderState, c: Choice, r1: Random, r2: Random, k: nat)
    requires t.cb.Valid() && e.Valid() && d.Valid() && c.Valid() && k < MA_NP
    ensures var (e', out) := CodedFrame(t, e, c);
      var (d', got) := DecodedWords(t, d, Sent(c), r1, r2);
      && |out| == |got| == 2 && e'.sharp == d'.voice.sharp
      && out[0].lag == got[0].lag && out[1].lag == got[1].lag
      && out[0].gains.pit == got[0].gains.pit && out[1].gains.pit == got[1].gains.pit
      && (Same(e.prev, d.lsp.prev, k) <==> Same(e'.prev, d'.lsp.prev, k + 1))
      && (k < 3 ==> (Same(e.past, d.voice.past, k) <==> Same(e'.past, d'.voice.past, k + 2)))
      && (e.prev == d.lsp.prev ==> e'.lspOldQ == d'.lspOld)
      && (Agree(e, d) ==> Agree(e', d') && out == got)
  {
    hide Params, Sent, CodedSubframe, AfterSubframe, DecodedVoice, Quantised, Elementary, Pushed, Same, FirstWord,
      SecondWord, ReceivedCode, FirstIndex, SecondIndex, Delivered;
    IntactFrame(c);
    LagIndices(c);
    SecondRoundTrip(c.first.lag.T0, c.second.lag);
    CodeRoundTrip(c.code);
    SentWords(c);
    IntactVoice(d.voice, c, r1, r2);
    var ele := Elementary(t.cb, c.code);
    PushedIsTable(ele, e.prev);
    PushSame(ele, e.prev, d.lsp.prev, k);
    var e0 := e.(prev := Pushed(ele, e.prev), lspOldQ := t.cosine(Quantised(t.cb, c.code, e.prev)));
    SubframeAgrees(e0, d.voice, c.first, k);
    WholeMemory(e.past, d.voice.past);
    var (e1, s1) := CodedSubframe(e0, c.first);
    var (v1, u1) := AfterSubframe(d.voice, c.first);
    if k < 3 { SubframeAgrees(e1, v1, c.second, k + 1); } else { SubframeAgrees(e1, v1, c.second, 0); }
    if e.past == d.voice.past && e.sharp == d.voice.sharp { AgreeingSubframes(e0, d.voice, c); }
  }

  lemma SentWords(c: Choice)
    requires c.Valid()
    ensures Params(c)[0] == FirstWord(c.code) && Params(c)[1] == SecondWord(c.code)
  {}

  lemma WholeMemory(p: seq<Word16>, q: seq<Word16>)
    requires |p| == |q| == 4
    ensures Same(p, q, 4) <==> p == q
  {}

  lemma AgreeingSubframes(e: CoderState, v: Voice, c: Choice)
    requires e.Valid() && v.Valid() && c.Valid() && e.past == v.past && e.sharp == v.sharp
    ensures 0 < c.first.lag.T0 <= PIT_MAX && 0 < c.second.lag.T0 <= PIT_MAX
    ensures var (e1, s1) := CodedSubframe(e, c.first);
      var (v1, u1) := AfterSubframe(v, c.first);
      var (e2, s2) := CodedSubframe(e1, c.second);
      var (v2, u2) := AfterSubframe(v1, c.second);
      e1.past == v1.past && e1.sharp == v1.sharp && e2.past == v2.past && e2.sharp == v2.sharp && s1 == u1 && s2 == u2
  {}

  // ----- Whole runs

  // What the coder chose in each frame, the 80 words received for it and the random
  // indices the decoder would draw if that frame were bad.
  datatype Frame = Frame(choice: Choice, received: seq<Word16>, r1: Random, r2: Random) {
    predicate Valid() { choice.Valid() && |received| == Offset(BITSNO, |BITSNO|) }
    predicate Intact() requires Valid() { received == Sent(choice) }
  }

  predicate Session(t: Tables, fs: seq<Frame>) {
    t.cb.Valid() && forall i :: 0 <= i < |fs| ==> fs[i].Valid()
  }

  function CoderRun(t: Tables, e: CoderState, fs: seq<Frame>, n: nat): (r: CoderState)
    requires Session(t, fs) && e.Valid() && n <= |fs|
    ensures r.Valid()
  {
    if n == 0 then e else CodedFrame(t, CoderRun(t, e, fs, n - 1), fs[n - 1].choice).0
  }

  function DecoderRun(t: Tables, d: DecoderState, fs: seq<Frame>, n: nat): (r: DecoderState)
    requires Session(t, fs) && d.Valid() && n <= |fs|
    ensures r.Valid()
  {
    if n == 0 then d else DecodedWords(t, DecoderRun(t, d, fs, n - 1), fs[n - 1].received, fs[n - 1].r1, fs[n - 1].r2).0
  }

  // The lags, gains and codewords of frame n on the two sides.
  function Coded(t: Tables, e: CoderState, fs: seq<Frame>, n: nat): seq<Subframe>
    requires Session(t, fs) && e.Valid() && n < |fs|
  {
    CodedFrame(t, CoderRun(t, e, fs, n), fs[n].choice).1
  }

  function Decoded(t: Tables, d: DecoderState, fs: seq<Frame>, n: nat): seq<Subframe>
    requires Session(t, fs) && d.Valid() && n < |fs|
  {
    DecodedWords(t, DecoderRun(t, d, fs, n), fs[n].received, fs[n].r1, fs[n].r2).1
  }

  /** Once the two sides agree they agree after every intact frame, and decode what was coded. */
  lemma {:induction false} StayInStep(t: Tables, e: CoderState, d: DecoderState, fs: seq<Frame>, n: nat)
    requires Session(t, fs) && e.Valid() && d.Valid() && n <= |fs| && Agree(e, d)
    requires forall i :: 0 <= i < n ==> fs[i].Intact()
    ensures Agree(CoderRun(t, e, fs, n), DecoderRun(t, d, fs, n))
    ensures forall i :: 0 <= i < n ==> Decoded(t, d, fs, i) == Coded(t, e, fs, i)
  {
    hide CodedFrame, DecodedWords, Agree, Sent;
    if n > 0 {
      StayInStep(t, e, d, fs, n - 1);
      OneMore(t, CoderRun(t, e, fs, n - 1), DecoderRun(t, d, fs, n - 1), fs[n - 1]);
    }
  }

  lemma OneMore(t: Tables, e: CoderState, d: DecoderState, f: Frame)
    requires t.cb.Valid() && e.Valid() && d.Valid() && f.Valid() && f.Intact() && Agree(e, d)
    ensures Agree(CodedFrame(t, e, f.choice).0, DecodedWords(t, d, f.received, f.r1, f.r2).0)
    ensures CodedFrame(t, e, f.choice).1 == DecodedWords(t, d, f.received, f.r1, f.r2).1
  {
    hide CodedFrame, DecodedWords, Agree, Sent, Same;
    GoodFrame(t, e, d, f.choice, f.r1, f.r2, 0);
  }

  lemma OneMoreSpectrum(t: Tables, e: CoderState, d: DecoderState, f: Frame, m: nat)
    requires t.cb.Valid() && e.Valid() && d.Valid() && f.Valid() && f.Intact() && m < MA_NP
    ensures Same(CodedFrame(t, e, f.choice).0.prev, DecodedWords(t, d, f.received, f.r1, f.r2).0.lsp.prev, m + 1)
       <==> Same(e.prev, d.lsp.prev, m)
  {
    hide CodedFrame, DecodedWords, Agree, Sent, Same;
    GoodFrame(t, e, d, f.choice, f.r1, f.r2, m);
  }

  /** Lock-step: over every error-free run from the reset states the two sides keep equal
      predictor memories, quantised spectra and sharpening, and the decoder finds the coder's
      lags, gains and sharpened codewords in every frame. */
  lemma LockStep(t: Tables, fs: seq<Frame>, n: nat)
    requires Session(t, fs) && n <= |fs|
    requires forall i :: 0 <= i < n ==> fs[i].Intact()
    ensures Agree(CoderRun(t, CoderStart(), fs, n), DecoderRun(t, DecoderStart(), fs, n))
    ensures forall i :: 0 <= i < n ==> Decoded(t, DecoderStart(), fs, i) == Coded(t, CoderStart(), fs, i)
  {
    StayInStep(t, CoderStart(), DecoderStart(), fs, n);
  }

  // The last k of the first n frames arrived intact.
  predicate Tail(t: Tables, fs: seq<Frame>, n: nat, k: nat)
    requires Session(t, fs) && k <= n <= |fs|
  {
    forall i :: n - k <= i < n ==> fs[i].Intact()
  }

  /** After k intact frames the k newest spectral vectors are the same on both sides, and all
      four are if and only if the 4 - k newest were before them. */
  lemma {:induction false} SpectraRejoin(t: Tables, e: CoderState, d: DecoderState, fs: seq<Frame>, n: nat, k: nat)
    requires Session(t, fs) && e.Valid() && d.Valid() && k <= n <= |fs| && k <= MA_NP && Tail(t, fs, n, k)
    ensures Same(CoderRun(t, e, fs, n).prev, DecoderRun(t, d, fs, n).lsp.prev, k)
    ensures Same(CoderRun(t, e, fs, n).prev, DecoderRun(t, d, fs, n).lsp.prev, MA_NP)
       <==> Same(CoderRun(t, e, fs, n - k).prev, DecoderRun(t, d, fs, n - k).lsp.prev, MA_NP - k)
  {
    hide CodedFrame, DecodedWords, Sent, Same, CoderRun, DecoderRun, Tail;
    SpectraCount(t, e, d, fs, n, k, k);
    SpectraCount(t, e, d, fs, n, k, MA_NP);
    NothingSame(CoderRun(t, e, fs, n - k).prev, DecoderRun(t, d, fs, n - k).lsp.prev);
  }

  lemma {:induction false} SpectraCount(t: Tables, e: CoderState, d: DecoderState, fs: seq<Frame>, n: nat, k: nat,
      m: nat)
    requires Session(t, fs) && e.Valid() && d.Valid() && k <= n <= |fs| && k <= m <= MA_NP && Tail(t, fs, n, k)
    ensures Same(CoderRun(t, e, fs, n).prev, DecoderRun(t, d, fs, n).lsp.prev, m)
       <==> Same(CoderRun(t, e, fs, n - k).prev, DecoderRun(t, d, fs, n - k).lsp.prev, m - k)
    decreases k
  {
    hide CodedFrame, DecodedWords, Agree, Sent, Same;
    if k > 0 {
      SpectraCount(t, e, d, fs, n - 1, k - 1, m - 1);
      assert fs[n - 1].Intact();
      OneMoreSpectrum(t, CoderRun(t, e, fs, n - 1), DecoderRun(t, d, fs, n - 1), fs[n - 1], m - 1);
    }
  }

  /** After two intact frames, four subframes, the two sides remember the same energies; one
      frame is enough exactly when the two newest energies were the same already. */
  lemma EnergiesRejoin(t: Tables, e: CoderState, d: DecoderState, fs: seq<Frame>, n: nat)
    requires Session(t, fs) && e.Valid() && d.Valid() && 1 <= n <= |fs| && Tail(t, fs, n, 1)
    ensures CoderRun(t, e, fs, n).past == DecoderRun(t, d, fs, n).voice.past
       <==> Same(CoderRun(t, e, fs, n - 1).past, DecoderRun(t, d, fs, n - 1).voice.past, 2)
    ensures n >= 2 && Tail(t, fs, n, 2) ==> CoderRun(t, e, fs, n).past == DecoderRun(t, d, fs, n).voice.past
  {
    hide CodedFrame, DecodedWords, Agree, Sent, Same;
    var f := fs[n - 1];
    assert f.Intact();
    WholeMemory(CoderRun(t, e, fs, n).past, DecoderRun(t, d, fs, n).voice.past);
    GoodFrame(t, CoderRun(t, e, fs, n - 1), DecoderRun(t, d, fs, n - 1), f.choice, f.r1, f.r2, 2);
    if n >= 2 && Tail(t, fs, n, 2) {
      var g := fs[n - 2];
      assert g.Intact();
      NothingSame(CoderRun(t, e, fs, n - 2).past, DecoderRun(t, d, fs, n - 2).voice.past);
      GoodFrame(t, CoderRun(t, e, fs, n - 2), DecoderRun(t, d, fs, n - 2), g.choice, g.r1, g.r2, 0);
    }
  }

  lemma NothingSame<T>(p: seq<T>, q: seq<T>)
    ensures Same(p, q, 0)
  {}

  /** Resynchronisation: whatever the two sides held and whatever was erased or damaged before,
      one intact frame makes the sharpening agree, two the energies, four the spectral memory
      and five everything, so that all later intact frames are decoded as coded. */
  lemma Resynchronised(t: Tables, e: CoderState, d: DecoderState, fs: seq<Frame>, n: nat, k: nat)
    requires Session(t, fs) && e.Valid() && d.Valid() && k <= n <= |fs| && Tail(t, fs, n, k)
    ensures k >= 1 ==> CoderRun(t, e, fs, n).sharp == DecoderRun(t, d, fs, n).voice.sharp
    ensures k >= 2 ==> CoderRun(t, e, fs, n).past == DecoderRun(t, d, fs, n).voice.past
    ensures k >= 4 ==> CoderRun(t, e, fs, n).prev == DecoderRun(t, d, fs, n).lsp.prev
    ensures k >= 5 ==> Agree(CoderRun(t, e, fs, n), DecoderRun(t, d, fs, n))
  {
    hide CodedFrame, DecodedWords, Sent, Same, CoderRun, DecoderRun;
    if k >= 1 {
      LastFrame(t, e, d, fs, n);
    }
    if k >= 2 {
      EnergiesRejoin(t, e, d, fs, n);
    }
    if k >= 4 {
      SpectraRejoin(t, e, d, fs, n, 4);
      AllSame(CoderRun(t, e, fs, n).prev, DecoderRun(t, d, fs, n).lsp.prev);
    }
    if k >= 5 {
      SpectraRejoin(t, e, d, fs, n - 1, 4);
      AllSame(CoderRun(t, e, fs, n - 1).prev, DecoderRun(t, d, fs, n - 1).lsp.prev);
    }
  }

  lemma LastFrame(t: Tables, e: CoderState, d: DecoderState, fs: seq<Frame>, n: nat)
    requires Session(t, fs) && e.Valid() && d.Valid() && 1 <= n <= |fs| && fs[n - 1].Intact()
    ensures CoderRun(t, e, fs, n).sharp == DecoderRun(t, d, fs, n).voice.sharp
    ensures CoderRun(t, e, fs, n - 1).prev == DecoderRun(t, d, fs, n - 1).lsp.prev
      ==> CoderRun(t, e, fs, n).lspOldQ == DecoderRun(t, d, fs, n).lspOld
  {
    hide CodedFrame, DecodedWords, Sent, Same, Agree;
    var f := fs[n - 1];
    GoodFrame(t, CoderRun(t, e, fs, n - 1), DecoderRun(t, d, fs, n - 1), f.choice, f.r1, f.r2, 0);
  }

  lemma AllSame(p: seq<Row>, q: seq<Row>)
    requires |p| == |q| == MA_NP && Same(p, q, MA_NP)
    ensures p == q
  {}
}
