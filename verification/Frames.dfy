/** The per-frame routines as objects: Coder_ld8a (COD_LD8A.C) from the results of the
    spectral analysis and the pitch search on, Decod_ld8a (DEC_LD8A.C) and the receiving
    loop (DECODER.C).  Their states move as Codec says. */
module Frames {
  import opened BasicOp
  import opened Ld8a
  import opened Bits
  import opened LspPredictor
  import opened LspQuant
  import opened Gain
  import opened PitchLag
  import opened PulseSearch
  import opened PulseCode
  import opened PulseEnergy
  import opened Codec
  import Acelp
  import Pitch

  method LimitSharp(pit: Word16) returns (sharp: Word16)
    ensures sharp == SharpOf(pit)
  {
    sharp := pit;
    if Sub(sharp, SHARPMAX) > 0 { sharp := SHARPMAX; }
    if Sub(sharp, SHARPMIN) < 0 { sharp := SHARPMIN; }
  }

  class Decoder {
    const tables: Tables
    const lsp: LspDecoder
    const gain: GainDecoder
    var lspOld: Row
    var sharp: Word16
    var oldT0: Word16
    var gains: Gains

    ghost predicate Valid()
      reads this, lsp, lsp.freqPrev, lsp.prevLsp, gain, gain.past
    {
      && tables.cb.Valid() && lsp.Valid() && gain.Valid() && lsp.prevLsp != gain.past
      && 0 < oldT0 <= PIT_MAX + 1
    }

    ghost function VoiceState(): (v: Voice)
      requires Valid()
      reads this, lsp, lsp.freqPrev, lsp.prevLsp, gain, gain.past
      ensures v.Valid()
    {
      Voice(gain.past[..], sharp, oldT0, gains)
    }

    ghost function State(): (d: DecoderState)
      requires Valid()
      reads this, lsp, lsp.freqPrev, lsp.prevLsp, gain, gain.past
      ensures d.Valid()
    {
      DecoderState(lsp.State(), lspOld, VoiceState())
    }

    // Init_Decod_ld8a
    constructor (t: Tables)
      requires t.cb.Valid()
      ensures Valid() && tables == t && State() == DecoderStart()
      ensures fresh(lsp) && fresh(lsp.freqPrev) && fresh(lsp.prevLsp) && fresh(gain) && fresh(gain.past)
    {
      tables := t;
      lsp := new LspDecoder();
      gain := new GainDecoder();
      lspOld := LSP_OLD;
      sharp := SHARPMIN;
      oldT0 := OLD_T0;
      gains := Gains(0, 0);
    }

    // The lag of a subframe.
    method TrackLag(ok: bool, decoded: Lag) returns (lag: Lag)
      requires Valid() && (ok ==> 0 < decoded.T0 <= PIT_MAX + 1)
      modifies this`oldT0
      ensures Valid() && (VoiceState(), lag) == Tracked(old(VoiceState()), ok, decoded)
    {
      if ok {
        lag := decoded;
        oldT0 := lag.T0;
      } else {
        lag := Lag(oldT0, 0);
        oldT0 := Add(oldT0, 1);
        if Sub(oldT0, PIT_MAX) > 0 {
          oldT0 := PIT_MAX;
        }
      }
    }

    // From the codeword to the sharpening of the next subframe.
    method DecodeInnovation(lag: Lag, bfi: bool, pos: Word16, sign: Word16, index: Word16) returns (s: Subframe)
      requires Valid() && lag.T0 > 0 && 0 <= index < 128
      modifies this`sharp, this`gains, gain.past
      ensures Valid() && (VoiceState(), s) == Innovated(old(VoiceState()), lag, bfi, pos, sign, index)
    {
      hide Codeword, Sharpened, Reconstructed, Remembered, Concealed, Attenuated, Gain.First, Gain.Second, Shl,
        SharpOf, DecodedPulses, DecodedSigns;
      var code := new Word16[L_SUBFR];
      DecodeAcelp(sign, pos, code);
      Sharpen(code, lag.T0, Shl(sharp, 1));
      gains := gain.DecGain(index, code[..], bfi, gains);
      sharp := LimitSharp(gains.pit);
      s := Subframe(lag, code[..], gains);
    }

    /** Decod_ld8a, up to the excitation and the synthesis; p[3] is the received parity bit. */
    method DecodeFrame(p: seq<Word16>, bfi: bool, parityError: bool, r1: Random, r2: Random)
        returns (out: seq<Subframe>)
      requires Valid() && Delivered(p) && parityError == (p[3] != Parity(p[2]))
      modifies this, lsp, lsp.freqPrev, lsp.prevLsp, gain.past
      ensures Valid() && (State(), out) == DecodedFrame(tables, old(State()), p, bfi, r1, r2)
    {
      hide Innovated, Tracked, DecodedFirst, DecodedSecond, Received, Erased, ReceivedCode, Parity, Delivered;
      ghost var d0 := State();
      DeliveredRanges(p);
      var lsfq := lsp.IquaCs(tables.cb, p[0], p[1], bfi);
      lspOld := tables.cosine(lsfq[..]);
      ghost var l1 := lsp.State();
      FirstLagRange(p[2]);
      var decoded := DecodeFirstLag(p[2]);
      var lag1 := TrackLag(!bfi && !parityError, decoded);
      var s1 := DecodeInnovation(lag1, bfi, if bfi then r1.pos else p[4], if bfi then r1.sign else p[5], p[6]);
      SecondLagRange(p[7], lag1.T0);
      decoded := DecodeSecondLag(p[7], lag1.T0);
      var lag2 := TrackLag(!bfi, decoded);
      var s2 := DecodeInnovation(lag2, bfi, if bfi then r2.pos else p[8], if bfi then r2.sign else p[9], p[10]);
      assert lsp.State() == l1;
      out := [s1, s2];
    }

    /** One turn of the receiving loop, from the serial words of a frame. */
    method ReceiveFrame(serial: array<Word16>, r1: Random, r2: Random) returns (out: seq<Subframe>)
      requires Valid() && serial.Length == 2 + Offset(BITSNO, |BITSNO|)
      requires serial != lsp.prevLsp && serial != gain.past
      modifies this, lsp, lsp.freqPrev, lsp.prevLsp, gain.past
      ensures Valid() && (State(), out) == DecodedWords(tables, old(State()), old(serial[2..]), r1, r2)
    {
      hide DecodedFrame, Field, Parity, Delivered;
      ghost var ws := serial[2..];
      var prm := new Word16[|BITSNO|];
      UnpackFrame(serial, 2, BITSNO, prm);
      UnpackedIsDelivered(ws);
      DeliveredRanges(prm[..]);
      var bfi := FrameErased(serial);
      var error := CheckParityPitch(prm[2], prm[3]);
      out := DecodeFrame(prm[..], bfi != 0, error != 0, r1, r2);
    }
  }

  // What the coder's pitch search, filters and correlators hand to the codebook searches of a
  // subframe.  Where the determinant of the correlations is not positive the program ends.
  datatype Target = Target(lag: Lag, x: array<Word16>, h: array<Word16>, g: seq<Word16>, e: seq<Word16>, tame: bool) {
    predicate Valid() {
      x.Length == h.Length == L_SUBFR && x != h && |g| == |e| == 5 && Determinant(g, e).value > 0
    }
  }

  datatype Words = Words(pos: Word16, sign: Word16, gains: Word16)

  // What a subframe of the coder did is what Codec says of the choice c.
  ghost predicate Emitted(e: CoderState, e': CoderState, s: Subframe, w: Words, c: SubChoice) {
    && e.Valid() && c.Valid() && c.lag.T0 > 0 && (e', s) == CodedSubframe(e, c)
    && w.pos == PositionIndex(c.ip) && w.sign == SignIndex(c.signs) && w.gains == Index(c.i1, c.i2)
  }

  lemma EmittedBy(e: CoderState, c: SubChoice, code: seq<Word16>, g: Gains, w: Words)
    requires e.Valid() && c.Valid() && 0 < c.lag.T0
    requires code == CodedVector(e.sharp, c) && g == Reconstructed(e.past, code, c.i1, c.i2)
    requires w.pos == PositionIndex(c.ip) && w.sign == SignIndex(c.signs) && w.gains == Index(c.i1, c.i2)
    ensures Emitted(e, CoderState(e.prev, e.lspOldQ, Remembered(e.past, c.i1, c.i2), SharpOf(g.pit)),
                    Subframe(c.lag, code, g), w, c)
  {
    hide CodedVector, Reconstructed, Remembered, SharpOf, PositionIndex, SignIndex, Index;
  }

  class Coder {
    const tables: Tables
    const lsp: LspEncoder
    const gain: GainEncoder
    var lspOldQ: Row
    var sharp: Word16

    ghost predicate Valid()
      reads this, lsp, lsp.freqPrev, gain, gain.past
    {
      tables.cb.Valid() && lsp.Valid() && gain.Valid() && SHARPMIN <= sharp <= SHARPMAX
    }

    ghost function State(): (e: CoderState)
      requires Valid()
      reads this, lsp, lsp.freqPrev, gain, gain.past
      ensures e.Valid()
    {
      CoderState(lsp.freqPrev[..], lspOldQ, gain.past[..], sharp)
    }

    // Init_Coder_ld8a
    constructor (t: Tables)
      requires t.cb.Valid()
      ensures Valid() && tables == t && State() == CoderStart()
      ensures fresh(lsp) && fresh(lsp.freqPrev) && fresh(gain) && fresh(gain.past)
    {
      tables := t;
      lsp := new LspEncoder();
      gain := new GainEncoder();
      lspOldQ := LSP_OLD;
      sharp := SHARPMIN;
    }

    /** Codebook searches of one subframe.  For a sound sharpened response the indices are those of
        a valid choice and the memories move accordingly. */
    method CodeSubframe(target: Target)
      returns (words: Words, s: Subframe, ghost c: SubChoice, ghost t: Acelp.Trace)
      requires Valid() && target.Valid() && 0 < target.lag.T0 <= PIT_MAX + 1
      requires target.x != gain.past && target.h != gain.past
      modifies this`sharp, target.h, gain.past
      ensures Valid() && Acelp.SearchOf(old(target.x[..]), target.h[..], t)
      ensures target.h[..] == Sharpened(old(target.h[..]), target.lag.T0, Shl(old(sharp), 1))
      ensures Sound(target.h[..]) ==> c.lag == target.lag && Emitted(old(State()), State(), s, words, c)
      ensures target.tame ==> s.gains.pit < GP0999
    {
      hide Acelp.SearchOf, Sound, Codeword, Sharpened, Reconstructed, Remembered, IsBestPair, Determinant, Shl,
        SharpOf, PositionIndex, SignIndex, Index, Emitted, FromEnergy, CodeEnergy;
      ghost var e := State();
      var code: array<Word16>, pos, sign;
      ghost var signs;
      pos, sign, code, t, signs := Acelp.FixedCodebook(target.x, target.h, target.lag.T0, sharp);
      var gains: Gains, index;
      ghost var i1, i2, cand1, cand2;
      index, gains, i1, i2, cand1, cand2 := gain.QuaGain(code[..], target.g, target.e, target.tame);
      sharp := LimitSharp(gains.pit);
      words := Words(pos, sign, index);
      s := Subframe(target.lag, code[..], gains);
      c := SubChoice(target.lag, t.ip, signs, i1, i2);
      if Sound(target.h[..]) { EmittedBy(e, c, code[..], gains, words); }
    }

    // The quantised spectrum and its two index words.
    method CodeSpectrum(wegt: Row, lsf: array<Word16>) returns (w0: Word16, w1: Word16, ghost code: Code)
      requires Valid() && |wegt| == M && lsf.Length == M && lsf != gain.past
      modifies this`lspOldQ, lsp.freqPrev
      ensures Valid() && code.Valid() && w0 == FirstWord(code) && w1 == SecondWord(code)
      ensures State() == WithSpectrum(tables, old(State()), code)
    {
      hide Searched, CodeDistortion, Quantised, Elementary, Pushed, FirstWord, SecondWord;
      var lspq: array<Word16>;
      ghost var other;
      lspq, w0, w1, code, other := lsp.Relspwed(tables.cb, wegt, lsf);
      lspOldQ := tables.cosine(lspq[..]);
    }

    // The codebook parameters of the two subframes.
    method CodeSubframes(t1: Target, t2: Target)
      returns (w1: Words, w2: Words, out: seq<Subframe>, ghost e1: CoderState, ghost c1: SubChoice, ghost c2: SubChoice)
      requires Valid() && t1.Valid() && t2.Valid() && Separate(t1, t2) && {t1.x, t1.h, t2.x, t2.h} !! {gain.past}
      requires PIT_MIN <= t1.lag.T0 <= PIT_MAX && PIT_MIN <= t2.lag.T0 <= PIT_MAX
      modifies this`sharp, gain.past, t1.h, t2.h
      ensures Valid() && |out| == 2 && e1.Valid()
      ensures Sound(t1.h[..]) ==> c1.lag == t1.lag && Emitted(old(State()), e1, out[0], w1, c1)
      ensures Sound(t2.h[..]) ==> c2.lag == t2.lag && Emitted(e1, State(), out[1], w2, c2)
      ensures Quiet(old(t1.h[..])) ==> Sound(t1.h[..])
      ensures Quiet(old(t2.h[..])) ==> Sound(t2.h[..])
    {
      hide Acelp.SearchOf, Sound, Quiet, Emitted, Sharpened, Determinant, Shl;
      ghost var h1, h2, sharp1 := t1.h[..], t2.h[..], sharp;
      var s1, s2;
      ghost var trace;
      w1, s1, c1, trace := CodeSubframe(t1);
      SharpenedQuiet(h1, t1.lag.T0, sharp1);
      e1 := State();
      ghost var sharp2 := sharp;
      assert t2.h[..] == h2;
      w2, s2, c2, trace := CodeSubframe(t2);
      SharpenedQuiet(h2, t2.lag.T0, sharp2);
      out := [s1, s2];
    }

    // The eleven parameters of a frame.
    method CodeParameters(wegt: Row, lsf: array<Word16>, t1: Target, t2: Target)
      returns (prm: array<Word16>, out: seq<Subframe>, ghost c: Choice)
      requires Valid() && |wegt| == M && lsf.Length == M
      requires FirstLag(t1.lag) && SecondLag(t2.lag, SecondRange(t1.lag.T0)) && t1.Valid() && t2.Valid()
      requires Separate(t1, t2) && {t1.x, t1.h, t2.x, t2.h, lsf} !! {gain.past}
      modifies this`sharp, this`lspOldQ, lsp.freqPrev, gain.past, t1.h, t2.h
      ensures Valid() && fresh(prm) && prm.Length == |BITSNO|
      ensures Sound(t1.h[..]) && Sound(t2.h[..]) ==>
                c.Valid() && (State(), out) == CodedFrame(tables, old(State()), c) && prm[..] == Params(c)
      ensures Quiet(old(t1.h[..])) ==> Sound(t1.h[..])
      ensures Quiet(old(t2.h[..])) ==> Sound(t2.h[..])
    {
      hide Sound, Quiet, Emitted, CodedFrame, Params, WithSpectrum, FirstWord, SecondWord, Parity, FirstIndex,
        SecondIndex, Determinant;
      ghost var e := State();
      ghost var code, e1, c1, c2;
      var w0, w, i1, parity, i2, w1, w2;
      w0, w, code := CodeSpectrum(wegt, lsf);
      i1, parity, i2 := LagWords(t1.lag, t2.lag);
      w1, w2, out, e1, c1, c2 := CodeSubframes(t1, t2);
      c := Choice(code, c1, c2);
      var words := [w0, w, i1, parity, w1.pos, w1.sign, w1.gains, i2, w2.pos, w2.sign, w2.gains];
      if Sound(t1.h[..]) && Sound(t2.h[..]) {
        FrameEmitted(tables, e, e1, State(), c, out, words);
      }
      prm := new Word16[|BITSNO|](i requires 0 <= i < 11 => words[i]);
      assert prm[..] == words;
    }

    /** Coder_ld8a with the quantisation of the spectrum: eleven parameters, packed into the
        serial words.  For two sound sharpened responses the memories, the subframes and the words
        sent are those of one valid choice; the responses are sound if they were quiet before. */
    method CodeFrame(wegt: Row, lsf: array<Word16>, t1: Target, t2: Target, serial: array<Word16>)
      returns (out: seq<Subframe>, ghost c: Choice)
      requires Valid() && |wegt| == M && lsf.Length == M
      requires FirstLag(t1.lag) && SecondLag(t2.lag, SecondRange(t1.lag.T0)) && t1.Valid() && t2.Valid()
      requires Separate(t1, t2) && {t1.x, t1.h, t2.x, t2.h, lsf} !! {gain.past}
      requires serial.Length == 2 + Offset(BITSNO, |BITSNO|) && serial !in {t1.h, t2.h, gain.past}
      modifies this`sharp, this`lspOldQ, lsp.freqPrev, gain.past, t1.h, t2.h, serial
      ensures Valid()
      ensures Sound(t1.h[..]) && Sound(t2.h[..]) ==>
                c.Valid() && (State(), out) == CodedFrame(tables, old(State()), c) && serial[2..] == Sent(c)
      ensures Quiet(old(t1.h[..])) ==> Sound(t1.h[..])
      ensures Quiet(old(t2.h[..])) ==> Sound(t2.h[..])
    {
      hide Sound, Quiet, CodedFrame, Params, Payload, Determinant;
      var prm: array<Word16>;
      prm, out, c := CodeParameters(wegt, lsf, t1, t2);
      ghost var h1, h2 := t1.h[..], t2.h[..];
      PackFrame(prm, BITSNO, serial);
      assert t1.h[..] == h1 && t2.h[..] == h2;
    }
  }

  // The responses are different arrays, and the first is not the target of the second subframe.
  predicate Separate(t1: Target, t2: Target) { t1.h != t2.x && t1.h != t2.h }

  lemma SharpenedQuiet(h: seq<Word16>, lag: Word16, sharp: Word16)
    requires PIT_MIN <= lag && SHARPMIN <= sharp <= SHARPMAX
    ensures Quiet(h) ==> Sound(Sharpened(h, lag, Shl(sharp, 1)))
  {
    assert TwoTo(1) == 2;
    if Quiet(h) { QuietIsSound(h, lag, Shl(sharp, 1)); }
  }

  /** What the closed-loop search finds is what the lag codec can carry, in both subframes. */
  lemma SearchedLagIsCodable(d: seq<Word16>, exc: seq<Word16>, at: int, lo: Word16, hi: Word16, first: bool,
      previous: Word16, l: Lag)
    requires |d| == L_SUBFR && 0 <= at && at + L_SUBFR <= |exc| && PIT_MAX + L_INTER10 <= at
    requires if first then PIT_MIN <= lo && hi <= PIT_MAX
             else PIT_MIN <= previous <= PIT_MAX && Range(lo, hi) == SecondRange(previous)
    requires Pitch.BestLag(d, exc, at, lo, hi, l.T0) && Pitch.BestFraction(d, exc[..at], first, l.T0, l.frac)
    ensures if first then FirstLag(l) else SecondLag(l, SecondRange(previous))
  {}

  // The lag and parity words of a frame.
  method LagWords(lag1: Lag, lag2: Lag) returns (i1: Word16, parity: Word16, i2: Word16)
    requires FirstLag(lag1) && SecondLag(lag2, SecondRange(lag1.T0))
    ensures i1 == FirstIndex(lag1) && parity == Parity(i1) && i2 == SecondIndex(lag2, SecondRange(lag1.T0))
    ensures PIT_MIN <= lag2.T0 <= PIT_MAX
  {
    hide Parity, FirstIndex, SecondIndex;
    SecondRoundTrip(lag1.T0, lag2);
    var range;
    i1, range := EncodeLag(lag1, Range(0, 0), true);
    parity := ParityPitch(i1);
    i2, range := EncodeLag(lag2, range, false);
  }

  lemma FrameEmitted(t: Tables, e: CoderState, e1: CoderState, e2: CoderState, c: Choice, out: seq<Subframe>,
                     prm: seq<Word16>)
    requires t.cb.Valid() && e.Valid() && c.code.Valid() && |prm| == |BITSNO| && |out| == 2
    requires FirstLag(c.first.lag) && SecondLag(c.second.lag, SecondRange(c.first.lag.T0))
    requires Emitted(WithSpectrum(t, e, c.code), e1, out[0], Words(prm[4], prm[5], prm[6]), c.first)
    requires Emitted(e1, e2, out[1], Words(prm[8], prm[9], prm[10]), c.second)
    requires prm[0] == FirstWord(c.code) && prm[1] == SecondWord(c.code)
    requires prm[2] == FirstIndex(c.first.lag) && prm[3] == Parity(prm[2])
    requires prm[7] == SecondIndex(c.second.lag, SecondRange(c.first.lag.T0))
    ensures c.Valid() && (e2, out) == CodedFrame(t, e, c) && prm == Params(c)
  {
    hide CodedSubframe, WithSpectrum, PositionIndex, SignIndex, Index, FirstWord, SecondWord, FirstIndex, SecondIndex,
      Parity;
    assert out == [out[0], out[1]];
  }
}
