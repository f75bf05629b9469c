/** What the decoder (DEC_LD8A.C) makes of an intact frame, an erased one and one with wrong bits. */
module ErasedFrame {
  import opened BasicOp
  import opened Ld8a
  import opened Bits
  import opened LspQuant
  import opened Gain
  import opened PitchLag
  import opened PulseSearch
  import opened PulseCode
  import opened Codec

  // One sample more, but at most the largest lag.
  function NextLag(T0: int): int { if T0 + 1 > PIT_MAX then PIT_MAX else T0 + 1 }

  /** An erased frame repeats the spectrum and the last lag, one longer in the second subframe, attenuates
      the gains twice, replaces the energies by their attenuated means and takes its pulses from the
      random indices; nothing of the received parameters matters. */
  lemma FrameErasure(t: Tables, d: DecoderState, p: seq<Word16>, r1: Random, r2: Random)
    requires t.cb.Valid() && d.Valid() && Delivered(p)
    ensures var (n, out) := DecodedFrame(t, d, p, true, r1, r2);
      var v := d.voice;
      var past1 := Shifted(v.past, Attenuated(v.past));
      && |out| == 2 && n.lsp == Erased(d.lsp) && n.lsp.lsp == d.lsp.lsp && n.lspOld == t.cosine(d.lsp.lsp)
      && out[0].lag == Lag(v.oldT0, 0) && out[1].lag.T0 as int == NextLag(v.oldT0) && out[1].lag.frac == 0
      && n.voice.oldT0 as int == NextLag(NextLag(v.oldT0))
      && out[0].gains == Concealed(v.gains) && out[1].gains == Concealed(Concealed(v.gains))
      && n.voice.past == Shifted(past1, Attenuated(past1))
      && n.voice.gains == out[1].gains && n.voice.sharp == SharpOf(out[1].gains.pit)
      && out[0].code == Sharpened(Codeword(DecodedPulses(r1.pos), DecodedSigns(r1.sign)), v.oldT0, Shl(v.sharp, 1))
  {
    hide Sharpened, Codeword, Concealed, Attenuated, Shifted, DecodedPulses, DecodedSigns, DecodedFirst,
      DecodedSecond, Parity, Reconstructed, Remembered, First, Second, Received, ReceivedCode, SharpOf;
    DeliveredRanges(p);
    FirstLagRange(p[2]);
  }

  /** With a wrong parity bit the first lag of an intact frame is the last one again, and the second is
      decoded relative to that. */
  lemma ParityError(t: Tables, d: DecoderState, p: seq<Word16>, r1: Random, r2: Random)
    requires t.cb.Valid() && d.Valid() && Delivered(p) && |p| == 11
    requires p[3] as int != Parity(p[2])
    ensures var (n, out) := DecodedFrame(t, d, p, false, r1, r2);
      && |out| == 2 && out[0].lag == Lag(d.voice.oldT0, 0)
      && out[1].lag == DecodedSecond(p[7], d.voice.oldT0) && n.voice.oldT0 == out[1].lag.T0
  {
    hide Sharpened, Codeword, Concealed, Attenuated, Shifted, DecodedPulses, DecodedSigns, DecodedFirst,
      DecodedSecond, Parity, Reconstructed, Remembered, First, Second, Received, ReceivedCode, SharpOf;
    DeliveredRanges(p);
    FirstLagRange(p[2]);
    SecondLagRange(p[7], d.voice.oldT0);
  }

  /** In an intact frame each of the eleven parameters feeds its own step, in the order of the stream, and
      each step uses the memories as the one before left them. */
  lemma ParametersUsed(t: Tables, d: DecoderState, p: seq<Word16>, r1: Random, r2: Random)
    requires t.cb.Valid() && d.Valid() && Delivered(p) && |p| == 11
    requires p[3] as int == Parity(p[2]) && 0 <= p[6] < 128 && 0 <= p[10] < 128
    ensures var (n, out) := DecodedFrame(t, d, p, false, r1, r2);
      var past1 := Remembered(d.voice.past, First(p[6]), Second(p[6]));
      && |out| == 2 && n.lsp == Received(t.cb, d.lsp, ReceivedCode(p[0], p[1])) && n.lspOld == t.cosine(n.lsp.lsp)
      && out[0].lag == DecodedFirst(p[2]) && out[1].lag == DecodedSecond(p[7], out[0].lag.T0)
      && n.voice.oldT0 == out[1].lag.T0
      && VectorOf(out[0], p[4], p[5], d.voice.sharp) && VectorOf(out[1], p[8], p[9], SharpOf(out[0].gains.pit))
      && out[0].gains == Reconstructed(d.voice.past, out[0].code, First(p[6]), Second(p[6]))
      && out[1].gains == Reconstructed(past1, out[1].code, First(p[10]), Second(p[10]))
      && n.voice.past == Remembered(past1, First(p[10]), Second(p[10]))
      && n.voice.gains == out[1].gains && n.voice.sharp == SharpOf(out[1].gains.pit)
  {
    hide Sharpened, Codeword, Concealed, Attenuated, Shifted, DecodedPulses, DecodedSigns, DecodedFirst,
      DecodedSecond, Parity, Reconstructed, Remembered, First, Second, Received, ReceivedCode, SharpOf;
    DeliveredRanges(p);
    FirstLagRange(p[2]);
    SecondLagRange(p[7], DecodedFirst(p[2]).T0);
  }

  // The vector of a subframe is that of its pulse indices, sharpened.
  predicate VectorOf(s: Subframe, pos: Word16, sign: Word16, sharp: Word16) {
    s.lag.T0 > 0 && s.code == Sharpened(Codeword(DecodedPulses(pos), DecodedSigns(sign)), s.lag.T0, Shl(sharp, 1))
  }

  predicate SameButPulses(p: seq<Word16>, q: seq<Word16>) {
    |p| == |q| == 11 && p[..4] == q[..4] && p[6] == q[6] && p[7] == q[7] && p[10] == q[10]
  }

  /** Wrong pulse indices do not spread: whatever they are, the spectrum, the lags, the pitch gains, the
      energies and the sharpening come out the same, now and for the next frame.  Only the code gain
      that a later erased frame would attenuate can differ. */
  lemma PulseErrorsStay(t: Tables, d: DecoderState, p: seq<Word16>, q: seq<Word16>, r1: Random, r2: Random)
    requires t.cb.Valid() && d.Valid() && Delivered(p) && Delivered(q) && SameButPulses(p, q)
    ensures var (n, out) := DecodedFrame(t, d, p, false, r1, r2);
      var (n', out') := DecodedFrame(t, d, q, false, r1, r2);
      && |out| == |out'| == 2
      && (forall k :: 0 <= k < 2 ==> out[k].lag == out'[k].lag && out[k].gains.pit == out'[k].gains.pit)
      && n' == n.(voice := n.voice.(gains := Gains(n.voice.gains.pit, n'.voice.gains.cod)))
  {
    hide Sharpened, Codeword, DecodedPulses, DecodedSigns, DecodedFirst, DecodedSecond, Parity, Remembered, First,
      Second, Received, ReceivedCode, SharpOf, PitchOf, CodeGain, FromEnergy, CodeEnergy, Factor;
    DeliveredRanges(p);
    FirstLagRange(p[2]);
    assert p[2] == p[..4][2] && p[3] == p[..4][3] && p[0] == p[..4][0] && p[1] == p[..4][1];
    assert q[2] == q[..4][2] && q[3] == q[..4][3] && q[0] == q[..4][0] && q[1] == q[..4][1];
  }
}
