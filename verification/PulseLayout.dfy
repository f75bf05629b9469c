/** Where the pulse correlations live.  Forty positions form five interleaved tracks
    (position mod 5); the 616-word matrix holds one 8-word diagonal per track and one
    8 x 8 block per pair of tracks, except that tracks 3 and 4 share one pulse. */
module PulseLayout {
  import opened Ld8a

  const NB_POS := 8
  const STEP := 5
  const MSIZE := 64
  const DIM_RR := 616

  // The nine blocks in storage order.
  function FirstTrack(block: int): int {
    if block < 4 then 0 else if block < 7 then 1 else 2
  }

  function SecondTrack(block: int): int {
    if block < 4 then block + 1 else if block < 7 then block - 2 else block - 4
  }

  function Block(a: int, b: int): int
    requires 0 <= a <= 2 && a < b <= 4
  {
    if a == 0 then b - 1 else if a == 1 then b + 2 else b + 4
  }

  // Start of the block of tracks a and b, or of the diagonal of track a.
  function Base(a: int, b: int): int
    requires 0 <= a <= b <= 4 && (a == b || a <= 2)
  {
    if a == b then NB_POS * a else STEP * NB_POS + MSIZE * Block(a, b)
  }

  predicate IsPair(i: int, j: int) {
    && 0 <= i < L_SUBFR && 0 <= j < L_SUBFR
    && (i == j || (i % STEP < j % STEP && i % STEP <= 2))
  }

  function Slot(i: int, j: int): int
    requires IsPair(i, j)
  {
    if i == j then NB_POS * (i % STEP) + i / STEP
    else Base(i % STEP, j % STEP) + NB_POS * (i / STEP) + j / STEP
  }

  // The pair of positions a word of the matrix stands for.
  function PosI(p: int): int {
    if p < 40 then STEP * (p % NB_POS) + p / NB_POS
    else STEP * (((p - 40) % MSIZE) / NB_POS) + FirstTrack((p - 40) / MSIZE)
  }

  function PosJ(p: int): int {
    if p < 40 then PosI(p)
    else STEP * (((p - 40) % MSIZE) % NB_POS) + SecondTrack((p - 40) / MSIZE)
  }

  // Distance of the two positions, and number of samples both pulses reach.
  function Distance(p: int): int {
    if PosI(p) <= PosJ(p) then PosJ(p) - PosI(p) else PosI(p) - PosJ(p)
  }

  function Overlap(p: int): int {
    L_SUBFR - (if PosI(p) <= PosJ(p) then PosJ(p) else PosI(p))
  }

  lemma AtBlock(p: int, a: int, b: int, row: int, col: int)
    requires 0 <= a <= 2 && a < b <= 4 && 0 <= row < NB_POS && 0 <= col < NB_POS
    requires p == Base(a, b) + NB_POS * row + col
    ensures 40 <= p < DIM_RR && PosI(p) == STEP * row + a && PosJ(p) == STEP * col + b
  {
    var k := Block(a, b);
    assert (p - 40) / MSIZE == k && (p - 40) % MSIZE == NB_POS * row + col;
  }

  lemma AtDiagonal(p: int, a: int, row: int)
    requires 0 <= a <= 4 && 0 <= row < NB_POS && p == Base(a, a) + row
    ensures 0 <= p < 40 && PosI(p) == PosJ(p) == STEP * row + a
  {}

  // The tracks, row and column of a word.
  lemma Coordinates(p: int) returns (a: int, b: int, row: int, col: int)
    requires 0 <= p < DIM_RR
    ensures 0 <= row < NB_POS && 0 <= col < NB_POS
    ensures PosI(p) == STEP * row + a && PosJ(p) == STEP * col + b
    ensures 0 <= a <= b <= 4
    ensures p < 40 ==> a == b && row == col && p == Base(a, a) + row
    ensures p >= 40 ==> a < b && a <= 2 && p == Base(a, b) + NB_POS * row + col
  {
    if p < 40 {
      a, row := p / NB_POS, p % NB_POS;
      b, col := a, row;
    } else {
      var k, r := (p - 40) / MSIZE, (p - 40) % MSIZE;
      a, b, row, col := FirstTrack(k), SecondTrack(k), r / NB_POS, r % NB_POS;
    }
  }

  lemma TrackOf(row: int, a: int)
    requires 0 <= a <= 4
    ensures (STEP * row + a) % STEP == a && (STEP * row + a) / STEP == row
  {}

  /** Slot is a bijection between the pairs of positions and the 616 words. */
  lemma SlotInverse(p: int)
    requires 0 <= p < DIM_RR
    ensures IsPair(PosI(p), PosJ(p)) && Slot(PosI(p), PosJ(p)) == p
  {
    var a, b, row, col := Coordinates(p);
    hide PosI, PosJ;
    TrackOf(row, a);
    TrackOf(col, b);
  }

  lemma InverseSlot(i: int, j: int)
    requires IsPair(i, j)
    ensures 0 <= Slot(i, j) < DIM_RR && PosI(Slot(i, j)) == i && PosJ(Slot(i, j)) == j
  {
    if i == j {
      AtDiagonal(Slot(i, j), i % STEP, i / STEP);
    } else {
      AtBlock(Slot(i, j), i % STEP, j % STEP, i / STEP, j / STEP);
    }
  }

  // A word is determined by its distance and its overlap.
  lemma SlotUnique(p: int, q: int)
    requires 0 <= p < DIM_RR && 0 <= q < DIM_RR
    requires Distance(p) == Distance(q) && Overlap(p) == Overlap(q)
    ensures p == q
  {
    var a, b, row, col := Coordinates(p);
    var a', b', row', col' := Coordinates(q);
    if PosI(p) == PosI(q) {
      hide PosI, PosJ;
      SameTrack(row, a, row', a');
      SameTrack(col, b, col', b');
    } else {
      hide PosI, PosJ;
      SameTrack(row, a, col', b');
      SameTrack(col, b, row', a');
    }
  }

  lemma SameTrack(row: int, a: int, row': int, a': int)
    requires 0 <= a <= 4 && 0 <= a' <= 4
    ensures STEP * row + a == STEP * row' + a' ==> row == row' && a == a'
  {}

  lemma SlotRange(p: int)
    requires 0 <= p < DIM_RR
    ensures 0 <= Distance(p) < L_SUBFR && 1 <= Overlap(p) <= L_SUBFR - Distance(p)
    ensures Distance(p) % STEP == 0 ==> Distance(p) == 0
  {
    var a, b, row, col := Coordinates(p);
    hide PosI, PosJ;
  }

  // Positions on tracks 3 and 4 have no word: nothing is stored for them.
  lemma NoSlot(p: int, k: int, u: int, d: int, m: int)
    requires 0 <= p < DIM_RR
    requires (d == STEP * k + 1 && m == STEP * u + 1) || (d == STEP * k + 4 && m == STEP * u + 2)
    ensures !(Distance(p) == d && Overlap(p) == m)
  {
    var a, b, row, col := Coordinates(p);
    hide PosI, PosJ;
  }
}
