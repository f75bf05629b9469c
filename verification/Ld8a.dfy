/** Sizes shared by the whole coder (ld8a.h). */
module Ld8a {
  const L_SUBFR := 40    // samples in a subframe
  const L_INTER10 := 10  // half length of the interpolation filter
  const UP_SAMP := 3     // its resolution
  const PIT_MIN := 20    // smallest pitch lag
  const PIT_MAX := 143   // largest pitch lag
  const M := 10          // order of the linear prediction
}
