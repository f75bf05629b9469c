# Verified model of the G.729A coder and of the bounded buffer

`EmbeddedSystem/Assignments/G729a_C_optimized` is a fixed-point ITU-T G.729 Annex A speech coder
in which saturating operators were replaced by plain C arithmetic, loops were unrolled and
buffers are rewritten in place.  `main_pthread.c` is a producer and consumer program with two
semaphores and a mutex.  This project models both in Dafny and proves what they are for: the
decoder follows the coder and finds its way back after lost frames, the fast forms compute what
the simple ones would, the fixed-point routines have the precision they promise, and the threads
neither lose an item nor get stuck.

Words are bounded integers.  Saturating operators clamp and have the same names as in the source;
the plain additions of the optimised loops wrap modulo 2^32 (or 2^16) and are written `Wrap32` and
`Wrap16`.  Where the source updates an array or a static variable, the model has an array or a
class field; each loop is proved against a function of its inputs, and the properties are lemmas
about these functions.

| files | subject |
|---|---|
| `BasicOp`, `Oper32b`, `Ld8a` | operators, split double precision, shared sizes |
| `Bits`, `PitchLag`, `PulseCode` | bit stream, lag and pulse codecs |
| `CorH`, `CorFunc`, `PulseLayout`, `PulseSearch`, `PulseEnergy`, `PulseCorrelation`, `Acelp` | correlation matrix, pulse search, and the energies and correlations it compares |
| `Taming`, `Lpc`, `Filter`, `FilterLaw` | error record, autocorrelation, filters and their exact sums |
| `Pitch`, `PitchKernel`, `PitchMatch` | pitch search, the interpolation and the correlation it stands for |
| `LspPoly`, `LspFixed`, `LspRange` | line spectral pairs and predictor coefficients: exact, in fixed point, and when they fit |
| `LspPredictor`, `LspStability`, `LspQuant`, `LspLaw`, `LspRun` | the quantiser of the line spectral pairs and the sums and quadratic forms it stands for |
| `Gain`, `GainPower`, `GainPrediction`, `GainPrecision`, `GainLaw` | gain prediction, quantisation and concealment, and their distance from the exact values |
| `Codec`, `ErasedFrame`, `FifthFrame`, `Frames` | whole frames and runs of coder and decoder, and what damage does |
| `BoundedBuffer` | producers and consumers |

`dafny verify dfyconfig.toml` checks everything.

## How the main results fit together

* `Codec` describes a frame of either side as a function of the memories that matter: the four
  past spectral vectors, the last quantised spectrum, the four past energies and the sharpening
  factor.  The choices of the coder's searches are parameters: `LockStep` and `Resynchronised` hold
  for every sequence of valid choices, whatever signal led to them.  `Frames` joins the search
  routines to these functions: `CodeFrame` makes a valid choice whenever the two impulse responses
  are sound.  `ErasedFrame` says what damage does: which memories an erasure or a parity error changes
  and that wrong pulses do not spread (`PulseErrorsStay`).
* Each quantity that crosses the channel has its own round trip: spectrum (`CodeRoundTrip`), lag
  (`FirstRoundTrip`, `SecondRoundTrip`), pulses (`CodewordRoundTrip`), gains (`IndexRoundTrip`) and
  the eleven fields together (`UnpackInvertsPack`).
* An impulse response is sound when it starts with at least 4096 and twice its energy fits 32 bits
  (`PulseEnergy.Sound`).  Then every energy the pulse search compares is positive
  (`EnergiesPositive`), the score kept dominates all candidates and holds the energy of the filtered
  codeword (`SoundSearch`), and the pulses lie on their tracks.  The other half of the score is the
  correlation: `AdjointLaw` says that the signed backward correlations at the pulses add up to the
  scalar product of the target and the filtered codeword, so that the ratio compared is the squared
  match per energy (`TargetMatched`), for the winner and for each candidate (`CandidateMeaning`).  The coder sets the first sample to
  4096 and filters from silence with a first coefficient of 4096 (`UnitSample`); sharpening starts one
  lag later and a fourfold reserve in the energy covers it (`QuietIsSound`).  Neither half can be dropped: `LoudResponse` and `SilentResponse`.

* Where a routine is a formula in fixed point, one lemma gives the formula without the functions of the
  model, with its taps, weights and indices written out, and the distance from it: the interpolation of
  the past (`SampleIsInterpolated`), the filters (`TapsWrittenOut`), the gain predictor (`GainBounded`),
  the distances of the quantisers (`LspLaw`, `GainLaw`).

## Findings

* The 8-bit lag index takes the values 1 to 255 without 196.  The decoder also accepts 0, which is
  lag 19 1/3 and below the smallest lag, and 196, which is 85 - 1/3.
* `Lsp_stability` does not always leave an increasing vector: its last clip can put the tenth word
  below the ninth (all ten inputs 25700), and above 30199 the saturating addition can lose the
  eighth gap.  `StabilityExact` gives the exact conditions.  No error-free run comes near them: with
  codebooks bounded by the column maxima of the shipped tables all gaps hold (`RunKeepsGaps`).
* The comment in the receiving loop (DECODER.C:132-134) marks a frame as erased when all its bits
  are zero; the code marks it when any of its words is zero, and that is what is modelled.
* `L_shl` and `L_shr` call each other for ever exactly for a shift of -32768, which is its own negative in
  16 bits (`EndlessShift`).
* The comment in `Gain_predict` (GAINPRED.C:88-91) promises more than 16768 for the mantissa; the
  code reaches 16384 (`SmallestPower`), and nothing less.
* `Qua_gain` divides by a determinant without testing it; `div_s` ends the program unless the determinant
  comes out positive (`DivisionGuard`).  That fails whenever the cross term squared is exactly
  the product of the energies (`ParallelVectors`), as for two equal vectors of energy 16384
  (`EqualVectors`); a positive
  determinant is lost only by less than one unit of the second product (`DeterminantExact`).
* The words of `Get_lsp_pol` overflow for densely packed line spectral pairs: when five of them are at
  least 25/32 no 32-bit word can hold the middle coefficient (`PackedOverflows`), while magnitudes up to
  3/4 are always in range (`SmallIsTame`).
* The inverse prediction tables are truncated rather than rounded, so an extracted vector composed
  again lies up to 5 units below the original but at most 2 above.
* An expansion pass leaves a pair apart unless the words cross by more than 16 bits can tell: then the sum
  saturates before it is halved and the pair still crosses afterwards (`CrossedStaysCrossed`);
  `PushedApart` gives the exact condition.
* The residual of a synthesised sample is the sample that was filtered, except that it is one more exactly
  when the synthesis rounded up from a tie (`ResidualInvertsSynthesis`).
* The limit of 0.9 on the pitch gain of an erased frame is never reached: the product before it is always
  smaller (`ConcealedGains`).
* The taming of the gain search needs no fallback: the first pair of every preselected window has a
  pitch gain below 1.

## Model

| member | source | states |
|---|---|---|
| `BasicOp.LMult` | EmbeddedSystem/Assignments/G729a_C_optimized/BASIC_OP.C:442-458 | the test for the one overflowing product is the same as clamping twice the exact product |
| `BasicOp.LAdd` | EmbeddedSystem/Assignments/G729a_C_optimized/BASIC_OP.C:846-861 | the sign-bit test on the wrapped sum is the same as clamping the exact sum to 32 bits |
| `BasicOp.LSub` | EmbeddedSystem/Assignments/G729a_C_optimized/BASIC_OP.C:895-910 | the same for the difference |
| `BasicOp.ShiftLeft32` | EmbeddedSystem/Assignments/G729a_C_optimized/BASIC_OP.C:1233-1268 | `L_shl` terminates for every shift but -32768 and is the exact product by a power of two, clamped to 32 bits |
| `BasicOp.ShiftRight32` | EmbeddedSystem/Assignments/G729a_C_optimized/BASIC_OP.C:1305-1332 | `L_shr` is floor division by a power of two, also for negative words, or the clamped left shift |
| `BasicOp.EndlessShift` | EmbeddedSystem/Assignments/G729a_C_optimized/BASIC_OP.C:1233-1332 | the two routines hand the shift over to each other without end if and only if it is -32768 |
| `BasicOp.Normalize32` | EmbeddedSystem/Assignments/G729a_C_optimized/BASIC_OP.C:1925-1954 | `norm_l` terminates on every word and returns the normalising shift |
| `BasicOp.NormMagnitude` | EmbeddedSystem/Assignments/G729a_C_optimized/BASIC_OP.C:1947-1951 | that shift, at most 30, brings a positive magnitude into [2^30, 2^31) |
| `BasicOp.NormalizedShift` | EmbeddedSystem/Assignments/G729a_C_optimized/BASIC_OP.C:1900-1954 | after it `L_shl` does not saturate, and a nonzero word has magnitude at least 2^30 |
| `BasicOp.DivideFraction` | EmbeddedSystem/Assignments/G729a_C_optimized/BASIC_OP.C:1840-1889 | the 15 restoring steps of `div_s` give floor(var1 * 2^15 / var2) |
| `Oper32b.ExtractDropsOneBit` | EmbeddedSystem/Assignments/G729a_C_optimized/OPER_32B.C:52-57 | `L_Extract` loses bit 0 and nothing else; `L_Comp` of its result is the word without that bit |
| `Oper32b.ExtractInvertsComp` | EmbeddedSystem/Assignments/G729a_C_optimized/OPER_32B.C:80-86 | splitting a joined pair gives the pair back |
| `Oper32b.Mpy32By16Error` | EmbeddedSystem/Assignments/G729a_C_optimized/OPER_32B.C:139-147 | `Mpy_32_16` is less than 2 units below the exact product and never above it |
| `Oper32b.Mpy32Error` | EmbeddedSystem/Assignments/G729a_C_optimized/OPER_32B.C:108-117 | `Mpy_32` is less than 6 units below the exact product and never above it |
| `Oper32b.Div32Precision` | EmbeddedSystem/Assignments/G729a_C_optimized/OPER_32B.C:193-223 | `Div_32` keeps its promised 24 bits: between 80 units below and 8 above the exact quotient, where 2^7 = 128 are allowed |
| `Bits.WriteBits` | EmbeddedSystem/Assignments/G729a_C_optimized/BITS.C:67-87 | `int2bin` writes the binary digits of the value, most significant first, and nothing outside its field |
| `Bits.ReadBits` | EmbeddedSystem/Assignments/G729a_C_optimized/BITS.C:111-127 | `bin2int` reads the number the words denote, modulo 2^16 |
| `Bits.PackFrame` | EmbeddedSystem/Assignments/G729a_C_optimized/BITS.C:44-61 | the serial frame is the two header words followed by all fields in order |
| `Bits.UnpackFrame` | EmbeddedSystem/Assignments/G729a_C_optimized/BITS.C:93-105 | each parameter is the value of its own field |
| `Bits.FrameErased` | EmbeddedSystem/Assignments/G729a_C_optimized/DECODER.C:132-137 | a frame is bad exactly when some payload word is zero |
| `Bits.BitsRoundTrip` | EmbeddedSystem/Assignments/G729a_C_optimized/BITS.C:67-87 | reading the bits of any value gives it modulo 2^n |
| `Bits.ValueRoundTrip` | EmbeddedSystem/Assignments/G729a_C_optimized/BITS.C:111-127 | writing the value of any string of bit words gives the string |
| `Bits.UnpackInvertsPack` | EmbeddedSystem/Assignments/G729a_C_optimized/BITS.C:44-127 | unpacking a packed frame gives every parameter modulo 2^width, for any widths |
| `Bits.PackInvertsUnpack` | EmbeddedSystem/Assignments/G729a_C_optimized/BITS.C:44-127 | packing an unpacked frame gives the frame back, for widths up to 16 |
| `Bits.SeventeenBitsLoseOne` | EmbeddedSystem/Assignments/G729a_C_optimized/BITS.C:111-127 | 16 is the exact limit: at 17 bits the top bit is lost |
| `Bits.PackedFrameIsGood` | EmbeddedSystem/Assignments/G729a_C_optimized/TAB_LD8A.C:514-517 | the real widths make exactly 80 words, and a packed frame is never taken for an erased one |
| `Bits.BitAt` | EmbeddedSystem/Assignments/G729a_C_optimized/BITS.C:67-87 | bit k of a field of n bits is the bit of weight 2^(n - 1 - k) of the value |
| `Bits.FirstBitWeighs` | EmbeddedSystem/Assignments/G729a_C_optimized/BITS.C:111-127 | and on reading the first word weighs 2^(n - 1) |
| `Bits.FieldInPayload` | EmbeddedSystem/Assignments/G729a_C_optimized/BITS.C:44-61 | the bits of each parameter stand at the sum of the widths before it, most significant first |
| `Taming.StepMonotone` | EmbeddedSystem/Assignments/G729a_C_optimized/TAMING.C:96-99 | for a gain that is not negative, one fixed-point step of the error recursion is monotone |
| `Taming.StepClosedForm` | EmbeddedSystem/Assignments/G729a_C_optimized/TAMING.C:96-99 | a step is one in Q14 plus the gain times the error, rounded down to a multiple of four, clamped |
| `Taming.UpdateKeepsSound` | EmbeddedSystem/Assignments/G729a_C_optimized/TAMING.C:79-134 | one update keeps each of the four words above the errors of all samples of its subframe |
| `Taming.RunIsSound` | EmbeddedSystem/Assignments/G729a_C_optimized/TAMING.C:22-134 | over every run of gains and lags the four words bound the whole per-sample error history they stand for |
| `Taming.ScannedZonesCoverWindow` | EmbeddedSystem/Assignments/G729a_C_optimized/TAMING.C:41-66 | the zones scanned cover every past sample the interpolation filter reads |
| `Taming.TamingRecord.constructor` | EmbeddedSystem/Assignments/G729a_C_optimized/TAMING.C:22-26 | the reset record bounds a history of unit errors |
| `Taming.TamingRecord.TestErr` | EmbeddedSystem/Assignments/G729a_C_optimized/TAMING.C:33-71 | the flag is 1 exactly when a reachable zone is above the threshold; 0 bounds every past sample the filter reads |
| `Taming.TamingRecord.WorstCase` | EmbeddedSystem/Assignments/G729a_C_optimized/TAMING.C:92-127 | the error of the new subframe is the worst over the zones a lag reaches, or over two chained steps for short lags |
| `Taming.TamingRecord.UpdateExcErr` | EmbeddedSystem/Assignments/G729a_C_optimized/TAMING.C:79-134 | the record is shifted, and bounds the history extended by the new subframe |
| `PulseLayout.SlotInverse` | EmbeddedSystem/Assignments/G729a_C_optimized/ACELP_CA.C:158-172 | every one of the 616 words belongs to a pair of positions that leads back to it |
| `PulseLayout.InverseSlot` | EmbeddedSystem/Assignments/G729a_C_optimized/ACELP_CA.C:158-172 | every pair of positions on different tracks (or one position) has its own word |
| `CorH.ScaleResponse` | EmbeddedSystem/Assignments/G729a_C_optimized/ACELP_CA.C:125-146 | the response is halved or shifted left by half the normalisation of its energy |
| `CorH.ComputeCorrelations` | EmbeddedSystem/Assignments/G729a_C_optimized/ACELP_CA.C:106-457 | all 616 words are written, each with the high half of twice its direct correlation, modulo 2^32 |
| `CorH.RunningIsDirect` | EmbeddedSystem/Assignments/G729a_C_optimized/ACELP_CA.C:165-455 | a running sum along a diagonal is the correlation of the two positions it has reached |
| `CorH.ScalingIsExact` | EmbeddedSystem/Assignments/G729a_C_optimized/ACELP_CA.C:125-146 | if twice the energy fits 32 bits no sample overflows in the scaling and the scaled energy fits again |
| `CorH.MatrixIsExact` | EmbeddedSystem/Assignments/G729a_C_optimized/ACELP_CA.C:125-455 | under the same condition no running sum wraps and each word is the exact high half |
| `CorFunc.CorHX` | EmbeddedSystem/Assignments/G729a_C_optimized/COR_FUNC.C:92-138 | the backward correlations, shifted so that the largest has 13 bits |
| `CorFunc.ThirteenBits` | EmbeddedSystem/Assignments/G729a_C_optimized/COR_FUNC.C:123-134 | the shift is right for every input: all words are below 2^13 in magnitude |
| `PulseCorrelation.BackwardIsAgainst` | EmbeddedSystem/Assignments/G729a_C_optimized/COR_FUNC.C:105-114 | each backward correlation is twice the scalar product of the target and the response delayed to that position, when no sum saturates |
| `PulseCorrelation.AdjointLaw` | EmbeddedSystem/Assignments/G729a_C_optimized/COR_FUNC.C:105-114 | for any signed pulses the signed sum of the backward correlations is twice the scalar product of the target and the filtered codeword |
| `PulseCorrelation.ScaledSumNear` | EmbeddedSystem/Assignments/G729a_C_optimized/COR_FUNC.C:92-138 | the same for the scaled words, with one common power of two and one unit for each pulse |
| `PulseSearch.BetterIsExact` | EmbeddedSystem/Assignments/G729a_C_optimized/ACELP_CA.C:680-691 | the saturating cross-multiplied test compares the two ratios exactly |
| `PulseSearch.FirstAccepted` | EmbeddedSystem/Assignments/G729a_C_optimized/ACELP_CA.C:637-638 | the start values (-1, 1) accept the first candidate exactly when its square plus its energy is positive |
| `PulseSearch.DominatesTransitive` | EmbeddedSystem/Assignments/G729a_C_optimized/ACELP_CA.C:680-691 | the ratio order is transitive for positive energies |
| `PulseSearch.PhaseA` | EmbeddedSystem/Assignments/G729a_C_optimized/ACELP_CA.C:633-697 | phase A tries 16 pairs and keeps one that dominates them all if their energies are positive |
| `PulseSearch.PhaseB` | EmbeddedSystem/Assignments/G729a_C_optimized/ACELP_CA.C:699-782 | phase B does the same for the 64 pairs of the two remaining tracks |
| `PulseSearch.SearchPulses` | EmbeddedSystem/Assignments/G729a_C_optimized/ACELP_CA.C:617-963 | if every compared energy is positive, the final score dominates all 4 x 64 candidates and the pulses lie on tracks 0, 1, 2 and 3 or 4; `Acelp.EnergiesPositive` gives the condition on the response |
| `PulseCorrelation.PairScored` | EmbeddedSystem/Assignments/G729a_C_optimized/ACELP_CA.C:633-697 | for words below 2^13 each candidate of phase A is scored with the square of the correlations at its own two positions |
| `PulseCorrelation.QuadrupleScored` | EmbeddedSystem/Assignments/G729a_C_optimized/ACELP_CA.C:699-963 | and each of the 64 candidates of a phase B with the square of those at its own four positions, over 2^15 |
| `PulseCorrelation.WinnerScored` | EmbeddedSystem/Assignments/G729a_C_optimized/ACELP_CA.C:617-963 | the score returned is that of the four pulses returned |
| `PulseEnergy.NormAtLeast` | EmbeddedSystem/Assignments/G729a_C_optimized/ACELP_CA.C:987-1016 | signed copies of a response at distinct positions never cancel: the energy of their sum is at least the square of its first sample |
| `PulseEnergy.NormIsPairs` | EmbeddedSystem/Assignments/G729a_C_optimized/ACELP_CA.C:165-455 | that energy grows with each pulse by its own energy and its correlations with the pulses before, the words of the matrix |
| `PulseEnergy.EnergyAClosed` | EmbeddedSystem/Assignments/G729a_C_optimized/ACELP_CA.C:633-697 | the energy of phase A never wraps: it is a rounded quarter of the sum of its words |
| `PulseEnergy.EnergyBClosed` | EmbeddedSystem/Assignments/G729a_C_optimized/ACELP_CA.C:699-782 | nor does the energy of phase B, a rounded sixteenth, while the sum stays below 2^19 |
| `PulseEnergy.EnergyBNear` | EmbeddedSystem/Assignments/G729a_C_optimized/ACELP_CA.C:699-782 | sixteen times the energy of a candidate is twice the energy of its filtered codeword, less 39 to plus 26 units of 2^16; it is at least 6 |
| `PulseEnergy.EnergyANear` | EmbeddedSystem/Assignments/G729a_C_optimized/ACELP_CA.C:633-697 | four times the energy of a candidate of phase A is twice that of its two filtered pulses, less 7 to plus 4 units of 2^16 |
| `PulseEnergy.AllEnergiesPositive` | EmbeddedSystem/Assignments/G729a_C_optimized/ACELP_CA.C:617-963 | every energy of all four searches is positive when the matrix holds the correlations of a response that starts high enough |
| `PulseEnergy.SoundIsTrusted` | EmbeddedSystem/Assignments/G729a_C_optimized/ACELP_CA.C:125-146 | a sound response still starts high enough after the scaling, and its matrix, with signs, is exact |
| `PulseEnergy.QuietIsSound` | EmbeddedSystem/Assignments/G729a_C_optimized/ACELP_CA.C:67-70 | sharpening keeps the first sample and at most quadruples the energy, so a response with that reserve is sound afterwards |
| `PulseCode.ChooseSigns` | EmbeddedSystem/Assignments/G729a_C_optimized/ACELP_CA.C:533-547 | magnitudes and the two opposite sign arrays |
| `PulseCode.ApplySigns` | EmbeddedSystem/Assignments/G729a_C_optimized/ACELP_CA.C:553-607 | each off-diagonal word is multiplied by the signs of its own two positions, the diagonals are left alone |
| `PulseCode.EmitCode` | EmbeddedSystem/Assignments/G729a_C_optimized/ACELP_CA.C:968-1039 | codeword, sign index and position index of the four pulses |
| `PulseCode.FilterCode` | EmbeddedSystem/Assignments/G729a_C_optimized/ACELP_CA.C:987-1016 | the filtered codeword is the sum of four signed delayed responses, modulo 2^16 |
| `PulseCode.DecodeAcelp` | EmbeddedSystem/Assignments/G729a_C_optimized/DE_ACELP.C:20-74 | any pair of received words is decoded to four signed pulses on their tracks |
| `PulseCode.PositionsRoundTrip` | EmbeddedSystem/Assignments/G729a_C_optimized/ACELP_CA.C:1027-1039 | on-track positions fit 13 bits and are decoded back |
| `PulseCode.IndicesRoundTrip` | EmbeddedSystem/Assignments/G729a_C_optimized/DE_ACELP.C:32-54 | every 13-bit index is the index of the pulses it decodes to |
| `PulseCode.SignsRoundTrip` | EmbeddedSystem/Assignments/G729a_C_optimized/ACELP_CA.C:1018-1025 | the four signs fit 4 bits and are decoded back |
| `PulseCode.CodewordRoundTrip` | EmbeddedSystem/Assignments/G729a_C_optimized/DE_ACELP.C:32-71 | the decoder rebuilds the codeword of any four on-track pulses |
| `PulseCode.Sharpen` | EmbeddedSystem/Assignments/G729a_C_optimized/ACELP_CA.C:67-70 | the in-place loop is the recursion on already sharpened samples |
| `PulseCode.SharpenedSample` | EmbeddedSystem/Assignments/G729a_C_optimized/ACELP_CA.C:67-70 | a sharpened sample is its own word plus the sharpened one a lag before, weighted; the first ones stay |
| `PulseCode.CodewordPulses` | EmbeddedSystem/Assignments/G729a_C_optimized/ACELP_CA.C:968-985 | the codeword is zero but for 8191 or -8192 at the four pulses, as their signs are |
| `Acelp.SearchCodebook` | EmbeddedSystem/Assignments/G729a_C_optimized/ACELP_CA.C:479-1040 | the whole of `D4i40_17_fast`: signs, search, codeword, filtered codeword and indices belong together |
| `Acelp.AcelpCode` | EmbeddedSystem/Assignments/G729a_C_optimized/ACELP_CA.C:48-96 | the search is run on the correlations of the sharpened response, the codeword returned is sharpened and `y` is the codeword filtered by the sharpened response |
| `Acelp.EnergiesPositive` | EmbeddedSystem/Assignments/G729a_C_optimized/ACELP_CA.C:617-963 | for a sound response every energy the search compares is positive, whatever the target |
| `Acelp.SoundSearch` | EmbeddedSystem/Assignments/G729a_C_optimized/ACELP_CA.C:617-963 | for a sound response the pulses lie on their tracks, their score dominates all 256 candidates of the second phases, it holds the energy of the filtered codeword, to 39 sixteenths of a unit, and the square of the signed correlations at the pulses returned |
| `Acelp.TargetMatched` | EmbeddedSystem/Assignments/G729a_C_optimized/ACELP_CA.C:617-963 | the correlation squared in it is that of the target and the filtered codeword over half the power of two of `Cor_h_X`, to four units, when no sum saturates |
| `Acelp.CandidateMeaning` | EmbeddedSystem/Assignments/G729a_C_optimized/ACELP_CA.C:617-963 | each of the 4 x 64 candidates compared is scored by the correlations at its own pulses and the energy of its own filtered codeword |
| `Acelp.LoudResponse` | EmbeddedSystem/Assignments/G729a_C_optimized/ACELP_CA.C:125-146 | a response that starts with 4096 but whose energy does not fit 32 bits: the search meets an energy that is not positive |
| `Acelp.SilentResponse` | EmbeddedSystem/Assignments/G729a_C_optimized/ACELP_CA.C:637-638 | the zero response fits but has zero energies, and the start values refuse its first candidate |
| `Acelp.FixedCodebook` | EmbeddedSystem/Assignments/G729a_C_optimized/ACELP_CA.C:48-96 | the indices stand for the codeword returned; for a sound sharpened response its pulses are on their tracks |
| `Acelp.DecoderRebuildsCodeword` | EmbeddedSystem/Assignments/G729a_C_optimized/DE_ACELP.C:20-74 | for a sound response the decoder rebuilds the searched codeword, before sharpening |
| `PitchLag.EncodeLag` | EmbeddedSystem/Assignments/G729a_C_optimized/PITCH_A.C:499-552 | lag index and, in the first subframe, the range of the second |
| `PitchLag.DecodeFirstLag` | EmbeddedSystem/Assignments/G729a_C_optimized/DEC_LAG3.C:33-52 | an 8-bit index below 197 is the lag (index + 2) / 3 + 19 with fraction (index + 2) % 3 - 1; from 197 on it is the integer lag index - 112 |
| `PitchLag.DecodeSecondLag` | EmbeddedSystem/Assignments/G729a_C_optimized/DEC_LAG3.C:54-83 | the lag is (index + 2) / 3 - 1 above the lower end of the ten-wide range around the previous lag, which is kept within 20 to 143; the fraction is (index + 2) % 3 - 1 |
| `PitchLag.FirstRoundTrip` | EmbeddedSystem/Assignments/G729a_C_optimized/DEC_LAG3.C:33-52 | every lag and fraction the search can return fits 8 bits and is decoded back |
| `PitchLag.SecondRoundTrip` | EmbeddedSystem/Assignments/G729a_C_optimized/DEC_LAG3.C:54-83 | the same for 5 bits in the second subframe, from the first integer lag alone |
| `PitchLag.FirstIndexReachable` | EmbeddedSystem/Assignments/G729a_C_optimized/PITCH_A.C:511-523 | the encoder produces exactly the indices 1 to 255 without 196 |
| `PitchLag.ParityPitch` | EmbeddedSystem/Assignments/G729a_C_optimized/P_PARITY.C:18-36 | the parity of the six upper bits |
| `PitchLag.ParityWrittenOut` | EmbeddedSystem/Assignments/G729a_C_optimized/P_PARITY.C:18-36 | the bit makes the number of ones among it and the six upper bits odd |
| `PitchLag.CheckParityPitch` | EmbeddedSystem/Assignments/G729a_C_optimized/P_PARITY.C:42-61 | 0 exactly when the received bit is that parity |
| `PitchLag.SingleErrorDetected` | EmbeddedSystem/Assignments/G729a_C_optimized/P_PARITY.C:18-61 | inverting one bit of the index is noticed if and only if it is one of the six upper ones |
| `Pitch.PredLt3` | EmbeddedSystem/Assignments/G729a_C_optimized/PRED_LT3.C:28-70 | for every lag above 10 the samples written in place depend on the past and on already written samples only |
| `PitchKernel.SampleIsInterpolated` | EmbeddedSystem/Assignments/G729a_C_optimized/PRED_LT3.C:28-70 | when nothing saturates a sample is the rounded sum of twenty past samples, each weighted by its distance from the lag T0 + frac / 3 and by nothing else |
| `PitchKernel.QuietIsUnsaturated` | EmbeddedSystem/Assignments/G729a_C_optimized/PRED_LT3.C:57-67 | which holds whenever no past sample exceeds 16384 |
| `Pitch.DotProduct` | EmbeddedSystem/Assignments/G729a_C_optimized/PITCH_A.C:267-281 | the saturating scalar product |
| `PitchMatch.DotIsExact` | EmbeddedSystem/Assignments/G729a_C_optimized/PITCH_A.C:267-281 | it is twice the exact scalar product when no partial sum leaves 32 bits |
| `Pitch.BestIntegerLag` | EmbeddedSystem/Assignments/G729a_C_optimized/PITCH_A.C:315-323 | the first lag of largest correlation in the range |
| `PitchMatch.ExcitationAdjoint` | EmbeddedSystem/Assignments/G729a_C_optimized/PITCH_A.C:315-323 | the excitation times the backward correlations is the target times the filtered excitation |
| `PitchMatch.LagScoreMatched` | EmbeddedSystem/Assignments/G729a_C_optimized/PITCH_A.C:315-323 | so the score of a lag is the match of the target and the filtered excitation one lag back, over a common power of two, to one unit for each unit of excitation |
| `Pitch.BestThird` | EmbeddedSystem/Assignments/G729a_C_optimized/PITCH_A.C:325-365 | the fraction kept has the largest score, the earliest of 0, -1, +1 winning ties, and its samples are what is left in the buffer |
| `Pitch.PitchFr3` | EmbeddedSystem/Assignments/G729a_C_optimized/PITCH_A.C:289-366 | the excitation left behind is one prediction from the untouched past with the lag and fraction returned |
| `Filter.DirectIsExact` | EmbeddedSystem/Assignments/G729a_C_optimized/FILTER.C:86-98 | the one-at-a-time accumulation is the exact sum modulo 2^32 |
| `Filter.FilterPair` | EmbeddedSystem/Assignments/G729a_C_optimized/FILTER.C:101-127 | two outputs of the unrolled loop are two steps of the one-at-a-time recursion |
| `FilterLaw.TapsWrittenOut` | EmbeddedSystem/Assignments/G729a_C_optimized/FILTER.C:53-178 | both filters weight the ten samples before, the newest with a[1] and the oldest with a[10] |
| `FilterLaw.OutputIsRounded` | EmbeddedSystem/Assignments/G729a_C_optimized/FILTER.C:86-98 | without overflow an output is the exact sum rounded to the nearest integer |
| `Filter.SynFilt` | EmbeddedSystem/Assignments/G729a_C_optimized/FILTER.C:53-140 | the unrolled filter gives the samples of the recursion kept in its comment, whatever input, output and memory share when the memory is not updated |
| `Filter.UnitSample` | EmbeddedSystem/Assignments/G729a_C_optimized/COD_LD8A.C:314-316 | the impulse response of a filter whose first coefficient is 4096 starts with 4096 |
| `Filter.SplitSums` | EmbeddedSystem/Assignments/G729a_C_optimized/FILTER.C:160-170 | the sums of odd and even taps add up to the whole sum |
| `Filter.Residu` | EmbeddedSystem/Assignments/G729a_C_optimized/FILTER.C:148-178 | the two accumulators give the same word as one sum |
| `FilterLaw.ResidualInvertsSynthesis` | EmbeddedSystem/Assignments/G729a_C_optimized/FILTER.C:53-178 | the residual of a synthesised sample is the sample filtered, or one more if and only if the output was rounded up from a tie |
| `Filter.ResidualIsSaturating` | EmbeddedSystem/Assignments/G729a_C_optimized/FILTER.C:162-175 | the wrapping form equals the saturating form of its comments whenever no step of the latter saturates |
| `Lpc.Alu.Mac` | EmbeddedSystem/Assignments/G729a_C_optimized/BASIC_OP.C:651-659 | the flag is set exactly when the product or the sum saturates, and is never cleared |
| `Lpc.WindowedSample` | EmbeddedSystem/Assignments/G729a_C_optimized/LPC.C:38-43 | a windowed sample is the product rounded to the nearest integer |
| `Lpc.SixteenthFits` | EmbeddedSystem/Assignments/G729a_C_optimized/LPC.C:46-61 | the scaling ends within three passes: a sixteenth of any signal fits |
| `Lpc.ScaleSignal` | EmbeddedSystem/Assignments/G729a_C_optimized/LPC.C:46-61 | the signal kept is the first of itself, its quarter and its sixteenth whose energy fits |
| `Lpc.LagIsExact` | EmbeddedSystem/Assignments/G729a_C_optimized/LPC.C:71-79 | no lag sum and none of their shifts saturates, and no lag exceeds r[0] |
| `Lpc.Autocorr` | EmbeddedSystem/Assignments/G729a_C_optimized/LPC.C:24-81 | for any window and input: r[0] is the normalised 1 + 2 * sum y^2 without its lowest bit, the other lags are exact at the same scale, r_h[0] is at least 0x4000 |
| `Lpc.PowerDominates` | EmbeddedSystem/Assignments/G729a_C_optimized/LPC.C:63-79 | the autocorrelations returned satisfy |r[i]| <= r[0] and meet what `Div_32` requires |
| `LspPoly.Palindrome` | EmbeddedSystem/Assignments/G729a_C_optimized/LPCFUNC.C:70-102 | the product of the factors is palindromic, so half of its coefficients determine it |
| `LspPoly.SumIsProduct` | EmbeddedSystem/Assignments/G729a_C_optimized/LPCFUNC.C:60-68 | the coefficients evaluate to the product of the factors 1 - 2 q x + x^2 at every point |
| `LspPoly.GetLspPol` | EmbeddedSystem/Assignments/G729a_C_optimized/LPCFUNC.C:70-102 | in exact arithmetic the in-place top-down loop leaves the lower half of that product, for any number of factors; `LspFixed.GetLspPol` is its fixed-point form |
| `LspPoly.AddFactor` | EmbeddedSystem/Assignments/G729a_C_optimized/LPCFUNC.C:84-99 | in exact arithmetic one pass of it multiplies by one more factor |
| `LspPoly.LspAz` | EmbeddedSystem/Assignments/G729a_C_optimized/LPCFUNC.C:27-57 | in exact arithmetic the coefficients evaluate to ((1 + x) F1(x) + (1 - x) F2(x)) / 2 at every point |
| `LspPoly.RecombinedIsHalf` | EmbeddedSystem/Assignments/G729a_C_optimized/LPCFUNC.C:39-55 | recombining two lower halves gives all coefficients of that polynomial |
| `LspPoly.SumAndDifference` | EmbeddedSystem/Assignments/G729a_C_optimized/LPC.C:366-397 | the sum and difference recurrences in exact arithmetic; `LspFixed.Polynomials` is their fixed-point form |
| `LspPoly.SplitInvertsRecombine` | EmbeddedSystem/Assignments/G729a_C_optimized/LPC.C:366-397 | they recover the two halves from recombined coefficients |
| `LspPoly.RecombineInvertsSplit` | EmbeddedSystem/Assignments/G729a_C_optimized/LPCFUNC.C:39-55 | and recombination recovers any coefficients starting with 1 from their two polynomials |
| `LspFixed.TwiceError` | EmbeddedSystem/Assignments/G729a_C_optimized/LPCFUNC.C:90-92 | the doubled truncated product of one step is at most 6 units of Q24 below the exact one and 2 above |
| `LspFixed.StepNear` | EmbeddedSystem/Assignments/G729a_C_optimized/LPCFUNC.C:88-96 | one step of the inner loop multiplies the error of its three words by four at most and adds six units |
| `LspFixed.GetLspPol` | EmbeddedSystem/Assignments/G729a_C_optimized/LPCFUNC.C:70-102 | all words are within 0, 6, 30, 126 and 510 units of Q24 of the exact product after one to five factors, if every exact term is at most 126 |
| `LspFixed.LspAz` | EmbeddedSystem/Assignments/G729a_C_optimized/LPCFUNC.C:27-57 | then the ten Q12 words are the exact coefficients to three quarters of a unit, if these are at most 7.99 |
| `LspFixed.SumAndDifference` | EmbeddedSystem/Assignments/G729a_C_optimized/LPC.C:372-397 | the overflow flag is set if and only if one of the recurrences leaves 16 bits; the words are those of the saturating recurrences in any case |
| `LspFixed.FitsExactly` | EmbeddedSystem/Assignments/G729a_C_optimized/LPC.C:372-397 | as long as nothing leaves 16 bits the saturating recurrences are exact but for the rounding of the halves |
| `LspFixed.Polynomials` | EmbeddedSystem/Assignments/G729a_C_optimized/LPC.C:366-419 | Q11 is kept if and only if nothing overflows there, else the words are those at Q10; saturated or not they are described, and exact up to the first overflow |
| `LspFixed.WordsNear` | EmbeddedSystem/Assignments/G729a_C_optimized/LPC.C:366-419 | word m is within m units of the exact sum or difference polynomial, at either scale |
| `LspFixed.Recovered` | EmbeddedSystem/Assignments/G729a_C_optimized/LPC.C:366-397 | line spectral pairs to predictor coefficients and back: polynomial word m is recovered to 1.75 m units of Q11 |
| `LspRange.Dominated` | EmbeddedSystem/Assignments/G729a_C_optimized/LPCFUNC.C:84-99 | the coefficients for negated bounds of the magnitudes bound all others |
| `LspRange.TameBelow` | EmbeddedSystem/Assignments/G729a_C_optimized/LPCFUNC.C:84-99 | so line spectral pairs meet the condition of `LspFixed.GetLspPol` when these are at most 126 |
| `LspRange.SmallIsTame` | EmbeddedSystem/Assignments/G729a_C_optimized/LPCFUNC.C:84-99 | which holds for all words up to three quarters in magnitude |
| `LspRange.PackedOverflows` | EmbeddedSystem/Assignments/G729a_C_optimized/LPCFUNC.C:84-99 | with five words of at least 25/32 every 32-bit word is more than a million units away from the middle coefficient |
| `LspRange.StartInRange` | EmbeddedSystem/Assignments/G729a_C_optimized/COD_LD8A.C:78-79 | the vector both sides start with meets all conditions of `LspFixed.LspAz` |
| `LspPredictor.PrevCompose` | EmbeddedSystem/Assignments/G729a_C_optimized/LSPGETQ.C:122-141 | the composed vector, column by column |
| `LspPredictor.PrevExtract` | EmbeddedSystem/Assignments/G729a_C_optimized/LSPGETQ.C:147-171 | the extracted vector, column by column |
| `LspPredictor.PrevUpdate` | EmbeddedSystem/Assignments/G729a_C_optimized/LSPGETQ.C:177-189 | the newest vector is pushed and the oldest lost |
| `LspLaw.ComposedExactly` | EmbeddedSystem/Assignments/G729a_C_optimized/LSPGETQ.C:122-141 | a composed word is the elementary word and the four past ones, each with its own coefficient, rounded down, when nothing saturates |
| `LspLaw.ExtractedExactly` | EmbeddedSystem/Assignments/G729a_C_optimized/LSPGETQ.C:147-171 | an extracted word is the word less the same prediction, times the inverse coefficient |
| `LspPredictor.TablesInvert` | EmbeddedSystem/Assignments/G729a_C_optimized/TAB_LD8A.C:329-350 | every one of the twenty inverse coefficients is close enough to the inverse of its sum |
| `LspPredictor.InversionError` | EmbeddedSystem/Assignments/G729a_C_optimized/LSPGETQ.C:122-171 | composing an extracted word returns it to within 5 units below and 2 above when nothing saturates |
| `LspPredictor.ComposeInvertsExtract` | EmbeddedSystem/Assignments/G729a_C_optimized/LSPGETQ.C:122-171 | the same for both modes, all ten columns and any memory |
| `LspStability.ExchangePass` | EmbeddedSystem/Assignments/G729a_C_optimized/LSPGETQ.C:200-211 | the exchanges carry the running maximum to the end and permute the words |
| `LspStability.Stability` | EmbeddedSystem/Assignments/G729a_C_optimized/LSPGETQ.C:191-233 | the three passes, for any input |
| `LspStability.StabilityExact` | EmbeddedSystem/Assignments/G729a_C_optimized/LSPGETQ.C:191-233 | both limits always hold; the first eight gaps hold if and only if there is room below 32767, the ninth if and only if there is room below the upper limit |
| `LspStability.ModerateInputs` | EmbeddedSystem/Assignments/G729a_C_optimized/LSPGETQ.C:218-226 | inputs up to 30199 always keep the first eight gaps |
| `LspStability.GapCanBeLost` | EmbeddedSystem/Assignments/G729a_C_optimized/LSPGETQ.C:218-226 | at 30200 they need not |
| `LspStability.ClipCanInvert` | EmbeddedSystem/Assignments/G729a_C_optimized/LSPGETQ.C:228-231 | the upper limit can put the last word below the one before it |
| `LspStability.Expand` | EmbeddedSystem/Assignments/G729a_C_optimized/LSPGETQ.C:51-111 | the three expansion loops, on the pairs each visits |
| `LspStability.PushedApart` | EmbeddedSystem/Assignments/G729a_C_optimized/LSPGETQ.C:59-67 | a pair closer than the gap less one is moved apart equally to the gap or one less, any other is left alone; afterwards it is at that distance if and only if the words did not cross by more than 16 bits can tell |
| `LspStability.CrossedStaysCrossed` | EmbeddedSystem/Assignments/G729a_C_optimized/LSPGETQ.C:59-67 | a concrete pair that crosses by more and still crosses afterwards |
| `LspStability.LeftApart` | EmbeddedSystem/Assignments/G729a_C_optimized/LSPGETQ.C:51-111 | each pair is apart when the loop leaves it |
| `LspStability.ExpandInHalves` | EmbeddedSystem/Assignments/G729a_C_optimized/LSPGETQ.C:51-111 | expanding the two halves in turn is expanding the whole |
| `LspStability.ExpandIsLocal` | EmbeddedSystem/Assignments/G729a_C_optimized/LSPGETQ.C:51-69 | expanding a half does not depend on what follows it |
| `LspStability.ExpandKeepsTotal` | EmbeddedSystem/Assignments/G729a_C_optimized/LSPGETQ.C:93-111 | the expansion keeps the sum of the vector when nothing saturates |
| `LspStability.ModerateExpands` | EmbeddedSystem/Assignments/G729a_C_optimized/LSPGETQ.C:93-111 | nothing saturates for words between 0 and 32000 and the gaps in use |
| `LspQuant.GetQuant` | EmbeddedSystem/Assignments/G729a_C_optimized/LSPGETQ.C:16-48 | reconstruction from a code, and the pushed predictor memory |
| `LspLaw.VectorWords` | EmbeddedSystem/Assignments/G729a_C_optimized/LSPGETQ.C:32-36 | the first five words take the second-stage row of the second index, the last five that of the third |
| `LspQuant.ElementaryApart` | EmbeddedSystem/Assignments/G729a_C_optimized/LSPGETQ.C:32-39 | in both passes each pair is left at the gap less one at least, and the last pair stays so |
| `LspQuant.CodeRoundTrip` | EmbeddedSystem/Assignments/G729a_C_optimized/QUA_LSP.C:124-125 | the two index words fit 8 and 10 bits and are read back as the code |
| `LspQuant.WordsWrittenOut` | EmbeddedSystem/Assignments/G729a_C_optimized/QUA_LSP.C:124-125 | they are 128 times the mode plus the first index, and 32 times the second plus the third |
| `LspQuant.PreSelect` | EmbeddedSystem/Assignments/G729a_C_optimized/QUA_LSP.C:135-165 | the first row of smallest distance |
| `LspLaw.PreDistanceExactly` | EmbeddedSystem/Assignments/G729a_C_optimized/QUA_LSP.C:151-156 | its distance is twice the sum of the squared differences when that fits |
| `LspQuant.Select` | EmbeddedSystem/Assignments/G729a_C_optimized/QUA_LSP.C:169-245 | the first row of smallest weighted distance over one half of the vector |
| `LspLaw.DistanceNear` | EmbeddedSystem/Assignments/G729a_C_optimized/QUA_LSP.C:190-197 | its distance is the weighted quadratic form, up to the rounding of each weight, when that fits |
| `LspQuant.MeasuredIsRebuilt` | EmbeddedSystem/Assignments/G729a_C_optimized/QUA_LSP.C:101-119 | the vector whose distortion the encoder measures is the one any decoder rebuilds from the code |
| `LspQuant.SearchMode` | EmbeddedSystem/Assignments/G729a_C_optimized/QUA_LSP.C:95-120 | the indices and the distortion of one predictor mode |
| `LspLaw.DistortionNear` | EmbeddedSystem/Assignments/G729a_C_optimized/QUA_LSP.C:249-274 | and so is the distortion of a mode, in the differences scaled by its coefficient sums |
| `LspQuant.LspEncoder.constructor` | EmbeddedSystem/Assignments/G729a_C_optimized/QUA_LSP.C:47-55 | the reset memory |
| `LspQuant.LspEncoder.Relspwed` | EmbeddedSystem/Assignments/G729a_C_optimized/QUA_LSP.C:72-132 | the better of the two searched modes is sent (mode 0 on ties), quantised and remembered |
| `LspQuant.LspDecoder.constructor` | EmbeddedSystem/Assignments/G729a_C_optimized/LSPDEC.C:31-43 | the reset memory, equal to the encoder's |
| `LspQuant.LspDecoder.IquaCs` | EmbeddedSystem/Assignments/G729a_C_optimized/LSPDEC.C:51-92 | decoding of any two words, and the repetition of the last spectrum in an erased frame |
| `LspRun.RunKeepsGaps` | EmbeddedSystem/Assignments/G729a_C_optimized/LSPGETQ.C:16-48 | after any number of error-free frames, with codebooks within the column maxima of the shipped ones, the quantised vector keeps all nine gaps and both limits |
| `Gain.Log2` | EmbeddedSystem/Assignments/G729a_C_optimized/DSPFUNC.C:82-118 | for every positive input the exponent is the position of the top bit and the fraction is the table interpolated at the mantissa, between its two neighbours |
| `Gain.Pow2Of14` | EmbeddedSystem/Assignments/G729a_C_optimized/DSPFUNC.C:35-57 | the result is in [2^14, 2^15) |
| `Gain.PowInterpolates` | EmbeddedSystem/Assignments/G729a_C_optimized/DSPFUNC.C:35-57 | it is the table interpolated at the fraction, rounded, between its two neighbours |
| `Gain.SmallestPower` | EmbeddedSystem/Assignments/G729a_C_optimized/GAINPRED.C:88-91 | 2^14 is reached, at fraction 0 |
| `Gain.GainPredict` | EmbeddedSystem/Assignments/G729a_C_optimized/GAINPRED.C:30-92 | the predicted gain depends on the four energies and the energy of the codeword alone, with a normalised mantissa; `GainPrediction.GainBounded` bounds its value |
| `GainPower.PowEntry` | EmbeddedSystem/Assignments/G729a_C_optimized/TAB_LD8A.C:524-529 | every entry of the table of powers is the exact power to one unit |
| `GainPower.LogEntry` | EmbeddedSystem/Assignments/G729a_C_optimized/TAB_LD8A.C:534-540 | every entry of the table of logarithms is exact to a 32nd |
| `GainPower.PowNear` | EmbeddedSystem/Assignments/G729a_C_optimized/DSPFUNC.C:35-57 | `Pow2` is the exact power to a 32nd of an octave, 0.19 dB, and one unit |
| `GainPower.LogNear` | EmbeddedSystem/Assignments/G729a_C_optimized/DSPFUNC.C:82-118 | `Log2` is the exact logarithm of every positive word, to two 32nds on one side and three on the other |
| `GainPower.GainNear` | EmbeddedSystem/Assignments/G729a_C_optimized/GAINPRED.C:76-91 | for every level the predicted gain is the power of two, with the factor 5439 / 2^15 of the source, to a 32nd of an octave and one unit |
| `GainPrediction.EnergyIsSquares` | EmbeddedSystem/Assignments/G729a_C_optimized/GAINPRED.C:46-48 | the energy of the codeword is twice the sum of its squares while that fits |
| `GainPrediction.LevelNear` | EmbeddedSystem/Assignments/G729a_C_optimized/GAINPRED.C:57-76 | when nothing saturates the level in Q8 is 127.298 dB less 3.0103 times the logarithm plus 5571, 4751, 2785 and 1556 of 8192 of the four energies, newest first, rounded down but for two units of Q14 |
| `GainPrediction.LoudIsUnsaturated` | EmbeddedSystem/Assignments/G729a_C_optimized/GAINPRED.C:72-76 | no memory saturates for a codeword of energy 2^28 at least |
| `GainPrediction.GainBounded` | EmbeddedSystem/Assignments/G729a_C_optimized/GAINPRED.C:30-92 | logarithm, prediction and power in one: the predicted gain lies between the powers of two that the mean, the energy of the codeword and the prediction give, a few 32nds of an octave apart |
| `GainPrediction.UpdateNear` | EmbeddedSystem/Assignments/G729a_C_optimized/GAINPRED.C:119-128 | the energy remembered is 20 log10 of the factor in Q10, rounded down twice |
| `GainPrediction.FactorInRange` | EmbeddedSystem/Assignments/G729a_C_optimized/GAINPRED.C:100-130 | for every pair of codebook entries the factor is in the range that needs |
| `Gain.GainUpdateErasure` | EmbeddedSystem/Assignments/G729a_C_optimized/GAINPRED.C:138-159 | the energy pushed is exactly the mean less 4 dB, floored at -14 dB, for every memory |
| `Gain.LongErasureResets` | EmbeddedSystem/Assignments/G729a_C_optimized/GAINPRED.C:138-159 | 48 erased subframes in a row bring any memory to its reset value and keep it there |
| `Gain.IndexRoundTrip` | EmbeddedSystem/Assignments/G729a_C_optimized/DEC_GAIN.C:74-76 | the decoder's maps undo the encoder's, and the index fits 7 bits |
| `Gain.IndexWrittenOut` | EmbeddedSystem/Assignments/G729a_C_optimized/QUA_GAIN.C:337 | it is 16 times the mapped first index plus the mapped second |
| `Gain.EveryIndexIsUsed` | EmbeddedSystem/Assignments/G729a_C_optimized/QUA_GAIN.C:337 | every 7-bit index is that of the pair it decodes to |
| `Gain.GbkPresel` | EmbeddedSystem/Assignments/G729a_C_optimized/QUA_GAIN.C:345-432 | both candidate windows lie inside their codebooks, whatever the gains |
| `GainLaw.FirstCoordinateIs` | EmbeddedSystem/Assignments/G729a_C_optimized/QUA_GAIN.C:358-369 | the coordinate compared with the second thresholds is the linear form of the two gains in its comment |
| `GainLaw.SecondCoordinateIs` | EmbeddedSystem/Assignments/G729a_C_optimized/QUA_GAIN.C:371-385 | and so is the one compared with the first thresholds |
| `GainLaw.WindowStart` | EmbeddedSystem/Assignments/G729a_C_optimized/QUA_GAIN.C:390-428 | each window starts after the longest run of thresholds that its coordinate lies beyond |
| `Gain.SearchGains` | EmbeddedSystem/Assignments/G729a_C_optimized/QUA_GAIN.C:241-312 | the first pair of least error in the window among those allowed |
| `GainLaw.DistortionNear` | EmbeddedSystem/Assignments/G729a_C_optimized/QUA_GAIN.C:249-276 | the error minimised is the quadratic form of the two gains in the five correlations, at most ten units below it and never above |
| `Gain.FirstIsAllowed` | EmbeddedSystem/Assignments/G729a_C_optimized/QUA_GAIN.C:249-254 | under taming the first pair of every window is allowed, so the result always is |
| `Gain.DivisionGuard` | EmbeddedSystem/Assignments/G729a_C_optimized/QUA_GAIN.C:93-110 | `div_s` is given a denominator it accepts if and only if the determinant is positive |
| `Gain.DeterminantSign` | EmbeddedSystem/Assignments/G729a_C_optimized/QUA_GAIN.C:93-105 | its sign is that of the comparison of the two products aligned to the smaller exponent |
| `Gain.DeterminantExact` | EmbeddedSystem/Assignments/G729a_C_optimized/QUA_GAIN.C:93-105 | it is positive exactly when the exact determinant is, but for less than one unit when the first product has the larger exponent |
| `Gain.ParallelVectors` | EmbeddedSystem/Assignments/G729a_C_optimized/QUA_GAIN.C:93-110 | when the cross term squared is exactly the product of the energies, as for parallel vectors, the determinant is never positive |
| `Gain.EqualVectors` | EmbeddedSystem/Assignments/G729a_C_optimized/QUA_GAIN.C:93-110 | a concrete input: two equal vectors of energy 16384 give determinant 0 and a denominator that ends the program |
| `Gain.UnquantisedGains` | EmbeddedSystem/Assignments/G729a_C_optimized/QUA_GAIN.C:112-164 | the two gains are the quotients of the numerators by the determinant; with taming the pitch gain is at most GPCLIP2; `GainPrecision.GainsNear` bounds their distance from the optimum |
| `GainPrecision.DifferenceNear` | EmbeddedSystem/Assignments/G729a_C_optimized/QUA_GAIN.C:93-105 | a difference of two products at two exponents is within one unit of the exact one |
| `GainPrecision.ReciprocalError` | EmbeddedSystem/Assignments/G729a_C_optimized/QUA_GAIN.C:106-135 | the product of an upper half and the reciprocal of an upper half is near the exact quotient of the full words |
| `GainPrecision.RatioNear` | EmbeddedSystem/Assignments/G729a_C_optimized/QUA_GAIN.C:130-136 | a gain is the exact quotient but for rounding down and three units of the last place of the shifted product, unless the shift saturates |
| `GainPrecision.GainsNear` | EmbeddedSystem/Assignments/G729a_C_optimized/QUA_GAIN.C:93-164 | both unquantised gains: the differences are exact to one unit and each gain is near the optimum they give |
| `GainLaw.OptimumMinimises` | EmbeddedSystem/Assignments/G729a_C_optimized/QUA_GAIN.C:74-89 | those two quotients minimise the quadratic error of `GainLaw.DistortionNear` over all pairs of real gains, and no other pair does |
| `GainLaw.PredictionInQ4` | EmbeddedSystem/Assignments/G729a_C_optimized/QUA_GAIN.C:166-174 | the preselection works on the predicted gain in Q4, divided or multiplied by the power of two of its exponent |
| `Gain.AlignCoefficients` | EmbeddedSystem/Assignments/G729a_C_optimized/QUA_GAIN.C:175-239 | the five correlations are brought to the one exponent that is smallest among their terms |
| `GainLaw.AlignedTerm` | EmbeddedSystem/Assignments/G729a_C_optimized/QUA_GAIN.C:216-239 | each correlation is shifted by the distance of its exponent from the least, those of p^2, p, c^2, c and p c |
| `Gain.GainEncoder.constructor` | EmbeddedSystem/Assignments/G729a_C_optimized/QUA_GAIN.C:67 | the reset energies |
| `Gain.GainEncoder.QuaGain` | EmbeddedSystem/Assignments/G729a_C_optimized/QUA_GAIN.C:42-339 | index, gains and memory belong to one pair, the best of its window for the correlations aligned to the predicted gain, the window being preselected by the unquantised gains; with taming the pitch gain stays below 1 |
| `Gain.GainDecoder.constructor` | EmbeddedSystem/Assignments/G729a_C_optimized/DEC_GAIN.C:53 | the reset energies |
| `Gain.GainDecoder.DecGain` | EmbeddedSystem/Assignments/G729a_C_optimized/DEC_GAIN.C:34-108 | reconstruction from an index, and attenuation of gains and energies in an erased frame |
| `GainLaw.CodeGainNear` | EmbeddedSystem/Assignments/G729a_C_optimized/DEC_GAIN.C:92-98 | the code gain is the factor times the predicted gain, rounded down, without the lowest bit of the factor |
| `GainLaw.ConcealedGains` | EmbeddedSystem/Assignments/G729a_C_optimized/DEC_GAIN.C:58-61 | in an erased frame the gains are exactly 29491 and 32111 of 32768 of the last ones, rounded down; the limit that follows is never reached |
| `Codec.IntactFrame` | EmbeddedSystem/Assignments/G729a_C_optimized/DECODER.C:130-141 | an intact frame is not taken for an erased one and yields the parameters sent |
| `Codec.GoodFrame` | EmbeddedSystem/Assignments/G729a_C_optimized/DEC_LD8A.C:117-235 | one intact frame, whatever the memories: what agrees afterwards, exactly |
| `Codec.StayInStep` | EmbeddedSystem/Assignments/G729a_C_optimized/DEC_LD8A.C:117-235 | sides that agree keep agreeing over any number of intact frames and decode what was coded |
| `Codec.LockStep` | EmbeddedSystem/Assignments/G729a_C_optimized/COD_LD8A.C:224-403 | over every error-free run from reset: equal predictor memories, spectra and sharpening, and equal lags, gains and sharpened codewords |
| `Codec.SpectraRejoin` | EmbeddedSystem/Assignments/G729a_C_optimized/LSPDEC.C:63-89 | after k intact frames the k newest vectors agree, and all four if and only if the 4 - k newest did before |
| `Codec.EnergiesRejoin` | EmbeddedSystem/Assignments/G729a_C_optimized/GAINPRED.C:100-159 | two intact frames make the energies agree; one does if and only if the two newest agreed before |
| `Codec.Resynchronised` | EmbeddedSystem/Assignments/G729a_C_optimized/DEC_LD8A.C:117-235 | after any erasures or damage: one intact frame for the sharpening, two for the energies, four for the spectral memory, five for everything |
| `ErasedFrame.FrameErasure` | EmbeddedSystem/Assignments/G729a_C_optimized/DEC_LD8A.C:117-235 | what an erased frame does: spectrum and lag repeated, the lag grown by one for the second subframe, gains attenuated twice, energies replaced by their attenuated means, pulses from the random indices; nothing received matters |
| `ErasedFrame.ParityError` | EmbeddedSystem/Assignments/G729a_C_optimized/DEC_LD8A.C:150-187 | what a wrong parity bit does: the first lag is the last one again and the second is decoded relative to it |
| `ErasedFrame.ParametersUsed` | EmbeddedSystem/Assignments/G729a_C_optimized/DEC_LD8A.C:117-235 | in an intact frame each of the eleven parameters feeds its own step, and each step sees the memories as the one before left them |
| `ErasedFrame.PulseErrorsStay` | EmbeddedSystem/Assignments/G729a_C_optimized/DEC_LD8A.C:117-235 | wrong pulse or sign indices change none of the memories but the code gain that a later erasure would attenuate: spectrum, lags, pitch gains, energies and sharpening are the same (the excitation buffer is left out) |
| `FifthFrame.SpectrumOfFrame` | EmbeddedSystem/Assignments/G729a_C_optimized/DEC_LD8A.C:117-145 | what one intact frame does to memory and spectrum of both sides |
| `FifthFrame.FourAreNotEnough` | EmbeddedSystem/Assignments/G729a_C_optimized/DEC_LD8A.C:117-235 | five is exact: memories that differ in one word of the newest vector agree after four intact frames, but the last spectra do not |
| `Frames.Decoder.constructor` | EmbeddedSystem/Assignments/G729a_C_optimized/DEC_LD8A.C:65-84 | the reset decoder |
| `Frames.Decoder.TrackLag` | EmbeddedSystem/Assignments/G729a_C_optimized/DEC_LD8A.C:150-187 | the lag decoded, or the last one again and one more next time, at most 143 |
| `Frames.Decoder.DecodeInnovation` | EmbeddedSystem/Assignments/G729a_C_optimized/DEC_LD8A.C:199-235 | codeword, sharpening, gains and the next sharpening factor |
| `Frames.Decoder.DecodeFrame` | EmbeddedSystem/Assignments/G729a_C_optimized/DEC_LD8A.C:93-235 | the state moves as `Codec.DecodedFrame` says |
| `Frames.Decoder.ReceiveFrame` | EmbeddedSystem/Assignments/G729a_C_optimized/DECODER.C:130-143 | one turn of the receiving loop moves the state as `Codec.DecodedWords` says |
| `Frames.Coder.constructor` | EmbeddedSystem/Assignments/G729a_C_optimized/COD_LD8A.C:100-145 | the reset coder |
| `Frames.Coder.CodeSubframe` | EmbeddedSystem/Assignments/G729a_C_optimized/COD_LD8A.C:370-403 | the codebook searches of a subframe make a valid choice when the sharpened response is sound, which a quiet response ensures; with taming the pitch gain stays below 1 |
| `Frames.Coder.CodeFrame` | EmbeddedSystem/Assignments/G729a_C_optimized/COD_LD8A.C:224-403 | when both responses are sound the state, the subframes and the 80 words sent are those of one valid choice |
| `Frames.SearchedLagIsCodable` | EmbeddedSystem/Assignments/G729a_C_optimized/PITCH_A.C:315-365 | what the closed-loop search returns is what the lag codec carries, in both subframes |
| `BoundedBuffer.Buffer.constructor` | EmbeddedSystem/Assignments/main_pthread.c:51-52 | the buffer starts empty |
| `BoundedBuffer.Buffer.InsertItem` | EmbeddedSystem/Assignments/main_pthread.c:112-123 | the item goes on top; -1 and no change exactly when the buffer is full |
| `BoundedBuffer.Buffer.RemoveItem` | EmbeddedSystem/Assignments/main_pthread.c:126-137 | the top item is taken; -1 and no change exactly when the buffer is empty |
| `BoundedBuffer.StepInv` | EmbeddedSystem/Assignments/main_pthread.c:56-109 | every step of every thread, be it a semaphore call, a lock, an unlock or one access to counter or slots, keeps semaphores, mutex, counter and contents in balance |
| `BoundedBuffer.RunIsSafe` | EmbeddedSystem/Assignments/main_pthread.c:56-137 | any number of threads, any interleaving of these steps: no operation fails, the counter stays in 0..5, items are conserved as multisets, one thread at most is in the critical section |
| `BoundedBuffer.SectionIsOperation` | EmbeddedSystem/Assignments/main_pthread.c:112-137 | the accesses of one critical section, run without another in between, are the whole of `insert_item` or `remove_item` |
| `BoundedBuffer.LostUpdate` | EmbeddedSystem/Assignments/main_pthread.c:112-123 | the mutex is needed: two producers past their load of the counter lose an item |
| `BoundedBuffer.UnlockedRunLoses` | EmbeddedSystem/Assignments/main_pthread.c:56-137 | without the lock, twelve steps from any initial state with two producers insert two items and leave one |
| `BoundedBuffer.NeverStuck` | EmbeddedSystem/Assignments/main_pthread.c:56-109 | with a producer and a consumer some thread can always step |
| `BoundedBuffer.RunNeverStuck` | EmbeddedSystem/Assignments/main_pthread.c:56-109 | the same in every state of every run |

## Left out

- The copy of the coder with assembly routines: the same algorithms, with the loops in code that is not part of this model.
- `asmCopy` and `asmADD16bit`: not part of this model; taken as `Copy` and `add`, as the commented-out calls beside them say (DEC_LD8A.C:135-136, PRED_LT3.C:45-46).
- Program entry points, files, printing, sleeping and thread creation: input and output only.
- Equality of the two excitation buffers: the decoder adds with wrapping and rescales its buffer on overflow (DEC_LD8A.C:249-268), so it would need further assumptions.
- Post-filter and the high-pass filters before and after: signal quality.
- `Levinson`, `Lag_window`, root finding in `Az_lsp`, the conversions between frequencies and line spectral pairs (a parameter of `Codec`), the weights of the spectral search (a parameter of `Relspwed`), open-loop pitch, `G_pitch` and `Corr_xy2` (their results are parameters of `Frames`).
- The contents of lspcb1, lspcb2 and the analysis window: arbitrary tables; results hold for all of them, `RunKeepsGaps` for all within the column maxima of the shipped ones.
- `L_add_c`, `L_sub_c`, `L_macNs`, `L_msuNs`, `L_sat`: not used by the coder.
- The external flag for bad spectra with channel protection: always 0 in this program.
- The network programs, the FIR filter and the dot-product program: easier than what is here.
- Gain.GainEncoder.QuaGain: requires the determinant to be positive; otherwise `div_s` ends the program (`DivisionGuard`).
- Gain.GainPredict: the contract names the saturating operators; `GainPrediction.GainBounded` bounds the value when no step of the prediction saturates.
- Gain.UnquantisedGains: the contract names the quotients; their distance from the exact optimum is `GainPrecision.GainsNear`, for shifts that do not saturate.
- PulseCode.ApplySigns: each block of the matrix is walked in turn, where the source walks the blocks of one first track together; the words written are the same.
- PulseSearch.PhaseA: one method with the tracks as parameters stands for the copies the source has for each pair of tracks, as do PhaseB and the second halves of the four searches.
- LspStability.Expand: one method with the pairs visited as parameters stands for the three expansion functions.
- LspQuant.Select: one method with the words compared as parameters stands for the two selection functions.
- LspPoly.GetLspPol: over the real numbers; `LspFixed.GetLspPol` bounds the distance of the Q24 words.
- LspPoly.AddFactor: over the real numbers; `LspFixed.StepNear` bounds one step in Q24.
- LspPoly.LspAz: over the real numbers; `LspFixed.LspAz` bounds the distance of the Q12 words.
- LspPoly.SumAndDifference: over the real numbers; `LspFixed.Polynomials` has the Q11 and Q10 words.
- Filter.SynFilt: the length is even and at most 90, as the unrolled loop and its local buffer need; the callers use 40 and 22.
- Codec.Resynchronised: the random pulse indices of bad frames are parameters, so the results hold whatever the generator returns.
- BoundedBuffer.RunIsSafe: the accesses are sequentially consistent; spurious wake-ups and failing calls are not modelled.
