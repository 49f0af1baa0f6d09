/**
  ITU-T G.711 mu-law, in the form CPython's audioop uses it: codes expand to
  16-bit linear samples (st_ulaw2linear16), and 14-bit linear values
  compress to codes (st_14linear2ulaw).  Every code is stored with all its
  bits complemented.
 */
module G711 {
  import opened Bytes

  /** The add-in bias for 16-bit samples. */
  const Bias := 0x84
  /** Largest 14-bit magnitude that is coded without saturating. */
  const Clip := 8159

  function Pow2(n: nat): (p: nat)
    requires n <= 8
    ensures p >= 1
  {
    match n
    case 0 => 1 case 1 => 2 case 2 => 4 case 3 => 8 case 4 => 16
    case 5 => 32 case 6 => 64 case 7 => 128 case 8 => 256
  }

  /** Expand one code: sign bit, 3-bit segment, 4-bit step, all complemented. */
  function UlawToLinear(u: byte): (s: int)
    ensures -32124 <= s <= 32124
  {
    var c := 0xFF - u;
    var t := ((c % 0x10) * 8 + Bias) * Pow2((c / 0x10) % 8);
    if c >= 0x80 then Bias - t else t - Bias
  }

  /** `search(val, seg_uend, 8)`: the first segment whose end is at least v, or 8 when none is. */
  function Segment(v: int): (seg: nat)
    ensures seg <= 8
  {
    if v <= 0x3F then 0
    else if v <= 0x7F then 1
    else if v <= 0xFF then 2
    else if v <= 0x1FF then 3
    else if v <= 0x3FF then 4
    else if v <= 0x7FF then 5
    else if v <= 0xFFF then 6
    else if v <= 0x1FFF then 7
    else 8
  }

  /**
    Compress a 14-bit linear value.  The magnitude is clipped to Clip, biased,
    and split into segment and step; the code word is then XOR-ed with the
    mask (0xFF for non-negative values, 0x7F for negative ones).  The
    uncomplemented word is below 0x80, so XOR with either mask is the mask
    minus the word.
   */
  function LinearToUlaw(p: int): (u: byte)
    requires -0x2000 <= p < 0x2000
    ensures u >= 0x80 <==> p >= 0
  {
    var mask := if p < 0 then 0x7F else 0xFF;
    var magnitude := (if p < 0 then -p else p);
    var biased := (if magnitude > Clip then Clip else magnitude) + Bias / 4;
    var seg := Segment(biased);
    var word := if seg >= 8 then 0x7F else seg * 0x10 + (biased / Pow2(seg + 1)) % 0x10;
    mask - word
  }

  /** The code whose complement has sign bit `sign`, segment `e` and step `q`. */
  function Code(sign: nat, e: nat, q: nat): (u: byte)
    requires sign < 2 && e < 8 && q < 0x10
  {
    0xFF - (sign * 0x80 + e * 0x10 + q)
  }

  lemma CodeFields(u: byte)
    ensures u == Code((0xFF - u) / 0x80, ((0xFF - u) / 0x10) % 8, (0xFF - u) % 0x10)
  {
  }

  /**
    A step q of segment e expands to a magnitude whose biased 14-bit form is
    (2q + 33) * 2^e; that value lies in segment e and its step field is q.
   */
  lemma BiasedMagnitude(e: nat, q: nat)
    requires e < 8 && q < 0x10
    ensures (2 * q + 33) * Pow2(e) <= Clip + Bias / 4 - 128
    ensures Segment((2 * q + 33) * Pow2(e)) == e
    ensures ((2 * q + 33) * Pow2(e) / Pow2(e + 1)) % 0x10 == q
  {
    var p := Pow2(e);
    var x := (2 * q + 33) * p;
    assert 33 * p <= x <= 63 * p;
    SegmentBounds(e, x);
    StepField(e, q);
  }

  /** Dropping the bias bit and e further bits of (2q + 33) * 2^e leaves 16 + q. */
  lemma StepField(e: nat, q: nat)
    requires e < 8 && q < 0x10
    ensures ((2 * q + 33) * Pow2(e) / Pow2(e + 1)) % 0x10 == q
  {
    match e
    case 0 => case 1 => case 2 => case 3 =>
    case 4 => case 5 => case 6 => case 7 =>
  }

  /** A value between 33 and 63 times 2^e lies in segment e. */
  lemma SegmentBounds(e: nat, x: int)
    requires e < 8 && 33 * Pow2(e) <= x <= 63 * Pow2(e)
    ensures Segment(x) == e && x <= 63 * 0x80
  {
    match e
    case 0 => case 1 => case 2 => case 3 =>
    case 4 => case 5 => case 6 => case 7 =>
  }

  lemma ExpandCode(sign: nat, e: nat, q: nat)
    requires sign < 2 && e < 8 && q < 0x10
    ensures var x := (2 * q + 33) * Pow2(e);
      UlawToLinear(Code(sign, e, q)) == if sign == 0 then 4 * x - 4 * 33 else 4 * 33 - 4 * x
  {
    var c := 0xFF - Code(sign, e, q);
    FieldsOfCode(sign, e, q);
    var t := ((c % 0x10) * 8 + Bias) * Pow2((c / 0x10) % 8);
    assert t == 4 * ((2 * q + 33) * Pow2(e));
  }

  /** The complement of Code(sign, e, q) holds `sign`, `e` and `q` in its bit fields. */
  lemma FieldsOfCode(sign: nat, e: nat, q: nat)
    requires sign < 2 && e < 8 && q < 0x10
    ensures var c := 0xFF - Code(sign, e, q);
      c % 0x10 == q && (c / 0x10) % 8 == e && (c >= 0x80 <==> sign == 1)
  {
    var c := sign * 0x80 + e * 0x10 + q;
    assert c / 0x10 == sign * 8 + e;
  }

  lemma RoundTripPositive(e: nat, q: nat)
    requires e < 8 && q < 0x10
    ensures LinearToUlaw(UlawToLinear(Code(0, e, q)) / 4) == Code(0, e, q)
  {
    var x := (2 * q + 33) * Pow2(e);
    ExpandCode(0, e, q);
    BiasedMagnitude(e, q);
    assert UlawToLinear(Code(0, e, q)) / 4 == x - 33;
  }

  lemma RoundTripNegative(e: nat, q: nat)
    requires e < 8 && q < 0x10
    ensures LinearToUlaw(UlawToLinear(Code(1, e, q)) / 4) == if e == 0 && q == 0 then 0xFF else Code(1, e, q)
  {
    var x := (2 * q + 33) * Pow2(e);
    ExpandCode(1, e, q);
    BiasedMagnitude(e, q);
    assert UlawToLinear(Code(1, e, q)) / 4 == 33 - x;
    assert x == 33 <==> e == 0 && q == 0;
  }

  /**
    Expanding a code and compressing its 16-bit sample (scaled to 14 bits by
    an arithmetic shift right of 2) gives the code back, except the
    negative-zero code 0x7F, which comes back as 0xFF (positive zero).
   */
  lemma UlawRoundTrip(u: byte)
    ensures LinearToUlaw(UlawToLinear(u) / 4) == if u == 0x7F then 0xFF else u
  {
    var c := 0xFF - u;
    var sign, e, q := c / 0x80, (c / 0x10) % 8, c % 0x10;
    CodeFields(u);
    assert u == Code(sign, e, q);
    if sign == 1 {
      RoundTripNegative(e, q);
    } else {
      RoundTripPositive(e, q);
    }
  }

  /** A code and the same code with its sign bit flipped expand to opposite samples. */
  lemma UlawSignSymmetry(u: byte)
    ensures UlawToLinear(u) == -UlawToLinear((u + 0x80) % 0x100)
  {
    var c := 0xFF - u;
    var sign, e, q := c / 0x80, (c / 0x10) % 8, c % 0x10;
    CodeFields(u);
    assert u == Code(sign, e, q);
    FlipSign(sign, e, q);
    ExpandCode(sign, e, q);
    ExpandCode(1 - sign, e, q);
  }

  /** Adding 0x80 modulo 256 flips the sign bit of a code and keeps its other fields. */
  lemma FlipSign(sign: nat, e: nat, q: nat)
    requires sign < 2 && e < 8 && q < 0x10
    ensures (Code(sign, e, q) + 0x80) % 0x100 == Code(1 - sign, e, q)
  {
  }
}
