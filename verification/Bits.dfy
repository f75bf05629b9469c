/** The serial bit stream (BITS.C): parameters are written most significant bit
    first, one 16-bit word per bit, after a sync word and a size word. */
module Bits {
  import opened BasicOp

  const BIT_0: Word16 := 0x7f
  const BIT_1: Word16 := 0x81
  const SYNC_WORD: Word16 := 0x6b21
  const SIZE_WORD: Word16 := 80

  // Field widths of one frame: two LSP fields, then lag, parity, pulse positions,
  // pulse signs and gains of subframe 1, and the same without parity for subframe 2.
  const BITSNO: seq<nat> := [8, 10, 8, 1, 13, 4, 7, 5, 13, 4, 7]

  function BitWord(odd: bool): Word16 { if odd then BIT_1 else BIT_0 }

  // Where field i starts; Offset(widths, |widths|) is the size of the payload.
  function Offset(widths: seq<nat>, i: nat): (p: nat)
    requires i <= |widths|
  {
    if i == 0 then 0 else Offset(widths, i - 1) + widths[i - 1]
  }

  // The n low bits of a two's complement value, most significant first.
  function BitWords(value: int, n: nat): (ws: seq<Word16>)
    ensures |ws| == n && forall k :: 0 <= k < n ==> ws[k] == BIT_0 || ws[k] == BIT_1
    decreases n
  {
    if n == 0 then [] else BitWords(value / 2, n - 1) + [BitWord(value % 2 != 0)]
  }

  // The number a bit string denotes; every word other than BIT_1 counts as zero.
  function BitValue(ws: seq<Word16>): nat {
    if ws == [] then 0
    else 2 * BitValue(ws[..|ws| - 1]) + (if ws[|ws| - 1] == BIT_1 then 1 else 0)
  }

  // The words of the first k parameters.
  function Payload(prm: seq<Word16>, widths: seq<nat>, k: nat): (ws: seq<Word16>)
    requires k <= |prm| == |widths|
    ensures |ws| == Offset(widths, k)
    ensures forall j :: 0 <= j < |ws| ==> ws[j] == BIT_0 || ws[j] == BIT_1
  {
    if k == 0 then [] else Payload(prm, widths, k - 1) + BitWords(prm[k - 1], widths[k - 1])
  }

  function Field(ws: seq<Word16>, widths: seq<nat>, i: nat): Word16
    requires i < |widths| && |ws| == Offset(widths, |widths|)
  {
    OffsetMonotone(widths, i + 1);
    Wrap16(BitValue(ws[Offset(widths, i)..Offset(widths, i + 1)]))
  }

  function Parameters(ws: seq<Word16>, widths: seq<nat>): seq<Word16>
    requires |ws| == Offset(widths, |widths|)
  {
    seq(|widths|, i requires 0 <= i < |widths| => Field(ws, widths, i))
  }

  lemma {:induction false} OffsetMonotone(widths: seq<nat>, i: nat)
    requires i <= |widths|
    ensures Offset(widths, i) <= Offset(widths, |widths|)
    decreases |widths| - i
  {
    if i < |widths| { OffsetMonotone(widths, i + 1); }
  }

  // ----- The bit loops

  lemma DigitMoves(v: int, n: nat, rest: seq<Word16>)
    requires n > 0
    ensures BitWords(v, n) + rest == BitWords(v / 2, n - 1) + ([BitWord(v % 2 != 0)] + rest)
  {}

  lemma PutBefore(before: seq<Word16>, p: nat, field: seq<Word16>, word: Word16, rest: seq<Word16>)
    requires 0 < p <= |before|
    ensures (before[..p] + field + rest)[p - 1 := word] == before[..p - 1] + ([word] + field) + rest
  {}

  /** int2bin: writes the bits of value backwards from bits[at + n - 1], shifting value right. */
  method WriteBits(value: Word16, n: nat, bits: array<Word16>, at: nat)
    requires at + n <= bits.Length
    modifies bits
    ensures bits[..] == old(bits[..at]) + BitWords(value, n) + old(bits[at + n..])
  {
    hide BitWords;
    var v: int, p := value, at + n;
    ghost var before := bits[..];
    ghost var field := [];
    for i := 0 to n
      invariant p == at + n - i && |field| == i
      invariant bits[..] == before[..p] + field + before[at + n..]
      invariant BitWords(value, n) == BitWords(v, n - i) + field
    {
      DigitMoves(v, n - i, field);
      PutBefore(before, p, field, BitWord(v % 2 != 0), before[at + n..]);
      var bit := v % 2;
      p := p - 1;
      bits[p] := if bit == 0 then BIT_0 else BIT_1;
      field := [BitWord(bit != 0)] + field;
      v := v / 2;
    }
    assert field == BitWords(value, n);
  }

  /** bin2int: the value is accumulated in a 16-bit word, which wraps. */
  method ReadBits(bits: array<Word16>, at: nat, n: nat) returns (value: Word16)
    requires at + n <= bits.Length
    ensures value == Wrap16(BitValue(bits[at..at + n]))
  {
    value := 0;
    for i := 0 to n
      invariant value == Wrap16(BitValue(bits[at..at + i]))
    {
      ghost var so := bits[at..at + i + 1];
      assert so[..i] == bits[at..at + i];
      WrapDoubled(BitValue(so[..i]), value);
      var doubled: int := 2 * (value as int);
      value := Wrap16(doubled);
      if bits[at + i] == BIT_1 { value := value + 1; }
    }
  }

  lemma WrapDoubled(v: nat, w: int)
    requires w == Wrap16(v)
    ensures Wrap16(2 * w) == Wrap16(2 * v) && Wrap16(2 * w) + 1 == Wrap16(2 * v + 1)
  {
    var q := (v + 0x8000) / 0x1_0000;
    var k := (2 * w + 0x8000) / 0x1_0000;
    var u := 2 * w - 0x1_0000 * k;
    Wrap16Unique(2 * v, u, 2 * q + k);
    Wrap16Unique(2 * v + 1, u + 1, 2 * q + k);
  }

  /** prm2bits_ld8k. */
  method PackFrame(prm: array<Word16>, widths: seq<nat>, bits: array<Word16>)
    requires prm != bits && prm.Length == |widths| && bits.Length == 2 + Offset(widths, |widths|)
    modifies bits
    ensures bits[..] == [SYNC_WORD, SIZE_WORD] + Payload(prm[..], widths, |widths|)
  {
    bits[0] := SYNC_WORD;
    bits[1] := SIZE_WORD;
    var at := 2;
    for i := 0 to prm.Length
      invariant at == 2 + Offset(widths, i) <= bits.Length
      invariant bits[..at] == [SYNC_WORD, SIZE_WORD] + Payload(prm[..], widths, i)
    {
      OffsetMonotone(widths, i + 1);
      ghost var done := bits[..at];
      WriteBits(prm[i], widths[i], bits, at);
      at := at + widths[i];
      assert bits[..at] == done + BitWords(prm[i], widths[i]);
    }
    assert bits[..] == bits[..at];
  }

  /** bits2prm_ld8k, reading from bits[at]. */
  method UnpackFrame(bits: array<Word16>, at: nat, widths: seq<nat>, prm: array<Word16>)
    requires prm != bits && prm.Length == |widths| && bits.Length == at + Offset(widths, |widths|)
    modifies prm
    ensures prm[..] == Parameters(bits[at..], widths)
  {
    var p := at;
    ghost var ws := bits[at..];
    for i := 0 to prm.Length
      invariant p == at + Offset(widths, i)
      invariant forall j :: 0 <= j < i ==> prm[j] == Field(ws, widths, j)
    {
      OffsetMonotone(widths, i + 1);
      var value := ReadBits(bits, p, widths[i]);
      assert ws[Offset(widths, i)..Offset(widths, i + 1)] == bits[p..p + widths[i]];
      prm[i] := value;
      p := p + widths[i];
    }
  }

  /** The erasure test of the decoder's frame loop: a frame is bad when some payload word is zero. */
  method FrameErased(serial: array<Word16>) returns (bfi: Word16)
    requires serial.Length >= 2
    ensures bfi == if 0 in serial[2..] then 1 else 0
  {
    bfi := 0;
    for i := 2 to serial.Length
      invariant bfi == if 0 in serial[2..i] then 1 else 0
    {
      assert serial[2..i + 1] == serial[2..i] + [serial[i]];
      if serial[i] == 0 { bfi := 1; }
    }
    assert serial[2..serial.Length] == serial[2..];
  }

  // ----- The two codecs undo each other

  /** Reading back the bits of a value gives it modulo 2^n, for every width and sign. */
  lemma {:induction false} BitsRoundTrip(value: int, n: nat)
    ensures BitValue(BitWords(value, n)) == value % TwoTo(n)
    decreases n
  {
    if n > 0 {
      var ws := BitWords(value, n);
      assert ws[..n - 1] == BitWords(value / 2, n - 1);
      BitsRoundTrip(value / 2, n - 1);
      HalfModulo(value, TwoTo(n - 1));
    }
  }

  lemma HalfModulo(v: int, d: int)
    requires d >= 1
    ensures v % (2 * d) == 2 * ((v / 2) % d) + v % 2
  {
    var h := v / 2;
    var q, r := h / d, h % d;
    assert h == d * q + r;
    var e := 2 * d;
    assert v == e * q + (2 * r + v % 2) by { assert e * q == 2 * (d * q); }
    ModUnique(v, e, q, 2 * r + v % 2);
  }

  lemma ModUnique(x: int, d: int, q: int, r: int)
    requires 0 <= r < d && x == d * q + r
    ensures x % d == r
  {
    DivUnique(x, d, q);
    assert x == d * (x / d) + x % d;
  }

  /** Rewriting the value of a bit string reproduces the string. */
  lemma {:induction false} ValueRoundTrip(ws: seq<Word16>)
    requires forall k :: 0 <= k < |ws| ==> ws[k] == BIT_0 || ws[k] == BIT_1
    ensures BitWords(BitValue(ws), |ws|) == ws
  {
    if ws != [] {
      var last := |ws| - 1;
      ValueRoundTrip(ws[..last]);
      LastDigit(BitValue(ws[..last]), BitWord(ws[last] == BIT_1));
      assert ws == ws[..last] + [ws[last]];
    }
  }

  lemma LastDigit(v: nat, word: Word16)
    requires word == BIT_0 || word == BIT_1
    ensures var b := if word == BIT_1 then 1 else 0;
      (2 * v + b) / 2 == v && BitWord((2 * v + b) % 2 != 0) == word
  {}

  // Only the n low bits of a value are written.
  lemma {:induction false} BitWordsCongruent(v: int, w: int, n: nat)
    requires v % TwoTo(n) == w % TwoTo(n)
    ensures BitWords(v, n) == BitWords(w, n)
    decreases n
  {
    if n > 0 {
      HalfModulo(v, TwoTo(n - 1));
      HalfModulo(w, TwoTo(n - 1));
      BitWordsCongruent(v / 2, w / 2, n - 1);
    }
  }

  lemma WrapCongruent(v: nat, n: nat)
    requires n <= 16 && v < TwoTo(n)
    ensures Wrap16(v) % TwoTo(n) == v % TwoTo(n)
  {
    TwoToWord();
    if n < 16 {
      TwoToMono(n, 15);
      assert Wrap16(v) == v;
    } else {
      assert Wrap16(v) == v || Wrap16(v) == v - 0x1_0000;
      ModUnique(v - 0x1_0000, 0x1_0000, -1, v);
    }
  }

  // Field i of the payload holds the bits of parameter i.
  lemma {:induction false} PayloadField(prm: seq<Word16>, widths: seq<nat>, k: nat, i: nat)
    requires i < k <= |prm| == |widths|
    ensures Offset(widths, i + 1) <= Offset(widths, k)
    ensures Payload(prm, widths, k)[Offset(widths, i)..Offset(widths, i + 1)] == BitWords(prm[i], widths[i])
  {
    if i < k - 1 { PayloadField(prm, widths, k - 1, i); }
  }

  /** Unpacking the payload returns every parameter modulo 2^width (as a 16-bit word). */
  lemma UnpackInvertsPack(prm: seq<Word16>, widths: seq<nat>)
    requires |prm| == |widths|
    ensures Parameters(Payload(prm, widths, |prm|), widths)
         == seq(|prm|, i requires 0 <= i < |prm| => Wrap16(prm[i] % TwoTo(widths[i])))
  {
    forall i | 0 <= i < |prm|
      ensures Field(Payload(prm, widths, |prm|), widths, i) == Wrap16(prm[i] % TwoTo(widths[i]))
    {
      PayloadField(prm, widths, |prm|, i);
      BitsRoundTrip(prm[i], widths[i]);
    }
  }

  /** Repacking any string of BIT_0 and BIT_1 words reproduces it, for widths up to 16. */
  lemma PackInvertsUnpack(ws: seq<Word16>, widths: seq<nat>)
    requires |ws| == Offset(widths, |widths|)
    requires forall k :: 0 <= k < |ws| ==> ws[k] == BIT_0 || ws[k] == BIT_1
    requires forall i :: 0 <= i < |widths| ==> widths[i] <= 16
    ensures Payload(Parameters(ws, widths), widths, |widths|) == ws
  {
    RepackPrefix(ws, widths, |widths|);
  }

  lemma {:induction false} RepackPrefix(ws: seq<Word16>, widths: seq<nat>, k: nat)
    requires k <= |widths| && |ws| == Offset(widths, |widths|)
    requires forall j :: 0 <= j < |ws| ==> ws[j] == BIT_0 || ws[j] == BIT_1
    requires forall i :: 0 <= i < |widths| ==> widths[i] <= 16
    ensures Offset(widths, k) <= |ws|
    ensures Payload(Parameters(ws, widths), widths, k) == ws[..Offset(widths, k)]
  {
    hide BitWords, BitValue, Wrap16;
    OffsetMonotone(widths, k);
    if k > 0 {
      RepackPrefix(ws, widths, k - 1);
      var p, q := Offset(widths, k - 1), Offset(widths, k);
      RepackField(ws[p..q]);
      assert ws[..q] == ws[..p] + ws[p..q];
    }
  }

  lemma {:induction false} BitValueBound(ws: seq<Word16>)
    ensures BitValue(ws) < TwoTo(|ws|)
  {
    if ws != [] { BitValueBound(ws[..|ws| - 1]); }
  }

  lemma RepackField(ws: seq<Word16>)
    requires |ws| <= 16
    requires forall k :: 0 <= k < |ws| ==> ws[k] == BIT_0 || ws[k] == BIT_1
    ensures BitWords(Wrap16(BitValue(ws)), |ws|) == ws
  {
    var v := BitValue(ws);
    BitValueBound(ws);
    WrapCongruent(v, |ws|);
    BitWordsCongruent(Wrap16(v), v, |ws|);
    ValueRoundTrip(ws);
  }

  /** At 17 bits the 16-bit accumulator loses the top bit, so 16 is the exact limit. */
  lemma SeventeenBitsLoseOne()
    ensures var ws := [BIT_1] + seq(16, _ => BIT_0);
      Offset([17], 1) == |ws| && Payload(Parameters(ws, [17]), [17], 1) != ws
  {
    var ws := [BIT_1] + seq(16, _ => BIT_0);
    assert Offset([17], 1) == 17;
    assert ws[0..17] == ws;
    LeadingOne(16);
    TwoToWord();
    assert Parameters(ws, [17])[0] == 0;
    AllZero(17);
    assert Payload(Parameters(ws, [17]), [17], 1)[0] == BIT_0;
  }

  lemma {:induction false} LeadingOne(n: nat)
    ensures BitValue([BIT_1] + seq(n, _ => BIT_0)) == TwoTo(n)
  {
    var ws := [BIT_1] + seq(n, _ => BIT_0);
    if n == 0 {
      assert ws[..0] == [];
    } else {
      assert ws[..n] == [BIT_1] + seq(n - 1, _ => BIT_0);
      LeadingOne(n - 1);
    }
  }

  lemma {:induction false} AllZero(n: nat)
    ensures forall k :: 0 <= k < n ==> BitWords(0, n)[k] == BIT_0
  {
    if n > 0 { AllZero(n - 1); }
  }

  /** The real table uses exactly 80 words, and a packed frame is never taken for an erased one. */
  lemma PackedFrameIsGood(prm: seq<Word16>)
    requires |prm| == |BITSNO|
    ensures |Payload(prm, BITSNO, 11)| == 80 == SIZE_WORD
    ensures 0 !in Payload(prm, BITSNO, 11)
  {
    assert Offset(BITSNO, 3) == 26;
    assert Offset(BITSNO, 6) == 44;
    assert Offset(BITSNO, 9) == 69;
  }

  // ----- The bits written out

  /** Bit k of a field of n bits is the bit of weight 2^(n - 1 - k). */
  lemma {:induction false} BitAt(value: int, n: nat, k: nat)
    requires k < n
    ensures BitWords(value, n)[k] == BIT_1 <==> value / TwoTo(n - 1 - k) % 2 == 1
    decreases n
  {
    if k == n - 1 {
      assert TwoTo(0) == 1;
      assert value / 1 == value;
    } else {
      BitAt(value / 2, n - 1, k);
      HalvedTwice(value, TwoTo(n - 2 - k));
      assert TwoTo(n - 1 - k) == 2 * TwoTo(n - 2 - k);
      hide TwoTo;
    }
  }

  lemma HalvedTwice(x: int, d: int)
    requires d > 0
    ensures x / 2 / d == x / (2 * d)
  {
    DivBounds(x, 2);
    DivBounds(x / 2, d);
    var q := x / 2 / d;
    assert (2 * d) * q == 2 * (d * q);
    DivUnique(x, 2 * d, q);
  }

  /** Reading weighs the first word with 2^(n - 1). */
  lemma {:induction false} FirstBitWeighs(ws: seq<Word16>)
    requires ws != []
    ensures BitValue(ws) == (if ws[0] == BIT_1 then TwoTo(|ws| - 1) else 0) + BitValue(ws[1..])
  {
    if |ws| == 1 {
      assert TwoTo(0) == 1;
      assert ws[..0] == [] && ws[1..] == [];
    } else {
      var init := ws[..|ws| - 1];
      FirstBitWeighs(init);
      assert init[1..] == ws[1..][..|ws| - 2];
      assert TwoTo(|ws| - 1) == 2 * TwoTo(|ws| - 2);
      hide TwoTo;
    }
  }

  /** The words of parameter i stand at its own place in the payload. */
  lemma {:induction false} FieldInPayload(prm: seq<Word16>, widths: seq<nat>, i: nat, k: nat)
    requires i < k <= |prm| == |widths|
    ensures Offset(widths, i) + widths[i] <= Offset(widths, k)
    ensures Payload(prm, widths, k)[Offset(widths, i)..Offset(widths, i) + widths[i]] == BitWords(prm[i], widths[i])
  {
    hide BitWords;
    if k > i + 1 {
      FieldInPayload(prm, widths, i, k - 1);
      var p := Payload(prm, widths, k - 1);
      assert (p + BitWords(prm[k - 1], widths[k - 1]))[..|p|] == p;
    }
  }
}
