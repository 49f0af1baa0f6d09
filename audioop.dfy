/**
  The parts of CPython's `audioop` the audio helpers call, over fragments of
  little-endian signed samples 1, 2, 3 or 4 bytes wide.  Each operation
  returns None where audioop raises `audioop.error` (a bad sample size, a
  fragment that is not a whole number of frames, a bad rate).
 */
module Audioop {
  import opened Bytes
  import opened Wrappers
  import G711

  /** Sample sizes audioop accepts ("Size should be 1, 2, 3 or 4"). */
  predicate IsWidth(w: int) { 1 <= w <= 4 }

  type Width = w: int | 1 <= w <= 4 witness 1

  /** Largest value of a C `int`; ratecv's rates are parsed into one. */
  const IntMax := 0x7FFF_FFFF

  function Modulus(w: Width): (m: nat)
    ensures m == Pow256(w)
  {
    match w
    case 1 => 0x100
    case 2 => 0x1_0000
    case 3 => 0x100_0000
    case 4 => 0x1_0000_0000
  }

  function MinSample(w: Width): int { -(Modulus(w) / 2) }

  function MaxSample(w: Width): int { Modulus(w) / 2 - 1 }

  predicate InRange(s: int, w: Width) { MinSample(w) <= s <= MaxSample(w) }

  /** `fbound` followed by `floor` on an integral value: saturate to [lo, hi]. */
  function Clamp(v: int, lo: int, hi: int): (r: int)
    requires lo <= hi
    ensures lo <= r <= hi
    ensures lo <= v <= hi ==> r == v
  {
    if v < lo then lo else if v > hi then hi else v
  }

  /** GETRAWSAMPLE: the two's-complement value of one sample's bytes. */
  function Sample(b: seq<byte>): (s: int)
    requires IsWidth(|b|)
    ensures InRange(s, |b|)
  {
    var u := LeValue(b);
    var m := Modulus(|b|);
    if u >= m / 2 then u - m else u
  }

  /** SETRAWSAMPLE: the bytes of `s` reduced modulo the sample range (wrap-around). */
  function SampleBytes(s: int, w: Width): (b: seq<byte>)
    ensures |b| == w
  {
    LeBytes(s % Modulus(w), w)
  }

  lemma SampleOfSampleBytes(s: int, w: Width)
    requires InRange(s, w)
    ensures Sample(SampleBytes(s, w)) == s
  {
    var m: int := Modulus(w);
    var u := if s < 0 then s + m else s;
    assert s == m * (if s < 0 then -1 else 0) + u;
    assert s % m == u;
    LeValueOfLeBytes(u, w);
  }

  lemma SampleBytesOfSample(b: seq<byte>)
    requires IsWidth(|b|)
    ensures SampleBytes(Sample(b), |b|) == b
  {
    var m: int := Modulus(|b|);
    var s := Sample(b);
    var u := LeValue(b);
    assert s == m * (if u >= m / 2 then -1 else 0) + u;
    assert s % m == u;
    LeBytesOfLeValue(b);
  }

  /** A non-empty whole number of `w`-byte frames holds a first frame and a whole rest. */
  lemma WholeFramesStep(n: nat, w: Width)
    requires n % w == 0 && n > 0
    ensures n >= w && (n - w) % w == 0
  {
    match w
    case 1 => case 2 => case 3 => case 4 =>
  }

  /** The signed samples of a fragment of whole `w`-byte frames. */
  function Samples(frag: seq<byte>, w: Width): (ss: seq<int>)
    requires |frag| % w == 0
    ensures |ss| * w == |frag|
    ensures forall i :: 0 <= i < |ss| ==> InRange(ss[i], w)
    decreases |frag|
  {
    if |frag| == 0 then []
    else
      WholeFramesStep(|frag|, w);
      [Sample(frag[..w])] + Samples(frag[w..], w)
  }

  lemma SampleCount(frag: seq<byte>, w: Width)
    requires |frag| % w == 0
    ensures |Samples(frag, w)| == |frag| / w
  {
    var n := |Samples(frag, w)|;
    assert n * w == |frag|;
    assert (n * w) / w == n;
  }

  /** The fragment holding `ss` as `w`-byte samples, each wrapped into range. */
  function Fragment(ss: seq<int>, w: Width): (frag: seq<byte>)
    ensures |frag| == |ss| * w
  {
    if |ss| == 0 then [] else SampleBytes(ss[0], w) + Fragment(ss[1..], w)
  }

  lemma {:induction false} SamplesOfFragment(ss: seq<int>, w: Width)
    requires forall i :: 0 <= i < |ss| ==> InRange(ss[i], w)
    ensures |Fragment(ss, w)| % w == 0
    ensures Samples(Fragment(ss, w), w) == ss
  {
    var frag := Fragment(ss, w);
    assert |frag| == |ss| * w;
    if |ss| == 0 {
    } else {
      assert |frag| % w == 0 by {
        assert |frag| == w * |ss|;
      }
      SamplesOfFragment(ss[1..], w);
      SampleOfSampleBytes(ss[0], w);
      assert frag[..w] == SampleBytes(ss[0], w);
      assert frag[w..] == Fragment(ss[1..], w);
      assert ss == [ss[0]] + ss[1..];
    }
  }

  lemma {:induction false} FragmentOfSamples(frag: seq<byte>, w: Width)
    requires |frag| % w == 0
    ensures Fragment(Samples(frag, w), w) == frag
    decreases |frag|
  {
    if |frag| > 0 {
      WholeFramesStep(|frag|, w);
      var head, tail := frag[..w], frag[w..];
      var ss := Samples(frag, w);
      assert ss == [Sample(head)] + Samples(tail, w);
      assert ss[0] == Sample(head) && ss[1..] == Samples(tail, w);
      assert Fragment(ss, w) == SampleBytes(Sample(head), w) + Fragment(Samples(tail, w), w);
      FragmentOfSamples(tail, w);
      SampleBytesOfSample(head);
      assert frag == head + tail;
    }
  }

  // ---------------------------------------------------------------------
  // Operations

  /** ulaw2lin: the 16-bit expansion, placed in a `w`-byte sample (SETSAMPLE32 of value << 16). */
  function Widen16(s: int, w: Width): int
  {
    match w
    case 1 => s / 0x100
    case 2 => s
    case 3 => s * 0x100
    case 4 => s * 0x1_0000
  }

  /** lin2ulaw: GETSAMPLE32 shifted right by 18, the 14-bit value G.711 compresses. */
  function Narrow14(s: int, w: Width): (p: int)
    requires InRange(s, w)
    ensures -0x2000 <= p < 0x2000
  {
    match w
    case 1 => s * 64
    case 2 => s / 4
    case 3 => s / 0x400
    case 4 => s / 0x4_0000
  }

  /** audioop.ulaw2lin(fragment, width): one `w`-byte sample per mu-law byte. */
  function Ulaw2Lin(frag: seq<byte>, w: int): (r: Option<seq<byte>>)
    ensures r.Some? <==> IsWidth(w)
    ensures r.Some? ==> |r.value| == w * |frag|
  {
    if !IsWidth(w) then None
    else Some(Fragment(seq(|frag|, i requires 0 <= i < |frag| => Widen16(G711.UlawToLinear(frag[i]), w)), w))
  }

  /** audioop.lin2ulaw(fragment, width): one mu-law byte per sample. */
  function Lin2Ulaw(frag: seq<byte>, w: int): (r: Option<seq<byte>>)
    ensures r.Some? <==> IsWidth(w) && |frag| % w == 0
    ensures r.Some? ==> |r.value| * w == |frag|
  {
    if !IsWidth(w) || |frag| % w != 0 then None
    else
      var ss := Samples(frag, w);
      Some(seq(|ss|, i requires 0 <= i < |ss| => G711.LinearToUlaw(Narrow14(ss[i], w))))
  }

  function SumSquares(ss: seq<int>): (sum: nat)
  {
    if |ss| == 0 then 0 else ss[0] * ss[0] + SumSquares(ss[1..])
  }

  /** The integer square root: the largest r with r * r <= n. */
  function ISqrt(n: nat): (r: nat)
    ensures r * r <= n < (r + 1) * (r + 1)
  {
    if n == 0 then 0
    else
      var h := 2 * ISqrt(n / 4);
      ISqrtStep(n, ISqrt(n / 4));
      if (h + 1) * (h + 1) <= n then h + 1 else h
  }

  /** Doubling the root of n / 4 leaves at most one step to the root of n. */
  lemma ISqrtStep(n: nat, s: nat)
    requires s * s <= n / 4 < (s + 1) * (s + 1)
    ensures (2 * s) * (2 * s) <= n < (2 * s + 2) * (2 * s + 2)
    ensures (2 * s + 1 + 1) * (2 * s + 1 + 1) == (2 * s + 2) * (2 * s + 2)
  {
    assert n == 4 * (n / 4) + n % 4;
    assert (2 * s) * (2 * s) == 4 * (s * s);
    assert (2 * s + 2) * (2 * s + 2) == 4 * ((s + 1) * (s + 1));
  }

  /** The integer square root is below `limit` exactly when its argument is below limit^2. */
  lemma ISqrtBelow(m: nat, limit: nat)
    ensures ISqrt(m) < limit <==> m < limit * limit
  {
    var r := ISqrt(m);
    if r < limit {
      SquareMonotone(r + 1, limit);
    } else {
      SquareMonotone(limit, r);
    }
  }

  /** Floor division by a positive n is below k exactly when the dividend is below k * n. */
  lemma QuotientBelow(a: nat, n: nat, k: nat)
    requires n > 0
    ensures a / n < k <==> a < k * n
  {
    var q := a / n;
    assert a == q * n + a % n && a % n < n;
    if q < k {
      MulMonotone(q + 1, k, n);
      assert (q + 1) * n == q * n + n;
    } else {
      MulMonotone(k, q, n);
    }
  }

  lemma MulMonotone(a: nat, b: nat, n: nat)
    requires a <= b
    ensures a * n <= b * n
  {
    assert b * n - a * n == (b - a) * n;
  }

  /** The root of a mean is below `limit` exactly when the total is below limit^2 per item. */
  lemma MeanRootBelow(sum: nat, n: nat, limit: nat)
    requires n > 0
    ensures ISqrt(sum / n) < limit <==> sum < limit * limit * n
  {
    QuotientBelow(sum, n, limit * limit);
    ISqrtBelow(sum / n, limit);
  }

  /**
    audioop.rms(fragment, width): the square root of the mean square sample,
    truncated to an integer; 0 for an empty fragment.
   */
  function Rms(frag: seq<byte>, w: int): (r: Option<nat>)
    ensures r.Some? <==> IsWidth(w) && |frag| % w == 0
  {
    if !IsWidth(w) || |frag| % w != 0 then None
    else
      var ss := Samples(frag, w);
      Some(if |ss| == 0 then 0 else ISqrt(MeanSquare(ss)))
  }

  /** The mean square sample, truncated. */
  function MeanSquare(ss: seq<int>): nat
    requires |ss| > 0
  {
    SumSquares(ss) / |ss|
  }

  /** audioop.mul(fragment, width, factor): every sample times factor, saturated. */
  function Mul(frag: seq<byte>, w: int, factor: int): (r: Option<seq<byte>>)
    ensures r.Some? <==> IsWidth(w) && |frag| % w == 0
    ensures r.Some? ==> |r.value| == |frag|
  {
    if !IsWidth(w) || |frag| % w != 0 then None
    else
      var ss := Samples(frag, w);
      Some(Fragment(seq(|ss|, i requires 0 <= i < |ss| => Clamp(ss[i] * factor, MinSample(w), MaxSample(w))), w))
  }

  /** audioop.bias(fragment, width, bias): bias added to every sample, wrapping around. */
  function Bias(frag: seq<byte>, w: int, bias: int): (r: Option<seq<byte>>)
    ensures r.Some? <==> IsWidth(w) && |frag| % w == 0
    ensures r.Some? ==> |r.value| == |frag|
  {
    if !IsWidth(w) || |frag| % w != 0 then None
    else
      var ss := Samples(frag, w);
      Some(Fragment(seq(|ss|, i requires 0 <= i < |ss| => ss[i] + bias), w))
  }

  /** One sample of tomono's output: a left and a right sample weighted and summed, saturated. */
  function Mix(left: int, right: int, lfactor: int, rfactor: int, w: Width): (s: int)
    ensures InRange(s, w)
  {
    Clamp(left * lfactor + right * rfactor, MinSample(w), MaxSample(w))
  }

  /**
    audioop.tomono(fragment, width, lfactor, rfactor): each left/right pair
    becomes left * lfactor + right * rfactor, saturated.
   */
  function ToMono(frag: seq<byte>, w: int, lfactor: int, rfactor: int): (r: Option<seq<byte>>)
    ensures r.Some? <==> IsWidth(w) && |frag| % w == 0 && (|frag| / w) % 2 == 0
  {
    if !IsWidth(w) || |frag| % w != 0 || (|frag| / w) % 2 != 0 then None
    else
      var ss := Samples(frag, w);
      Some(Fragment(seq(|ss| / 2, i requires 0 <= i < |ss| / 2 => Mix(ss[2 * i], ss[2 * i + 1], lfactor, rfactor, w)), w))
  }

  /**
    The interpolation inside audioop.ratecv, which is not modelled: it maps
    the samples of a one-channel fragment, their width and the input and
    output rates to the output samples.
   */
  type Resampler = (seq<int>, Width, int, int) -> seq<int>

  /**
    audioop.ratecv(fragment, width, 1, inrate, outrate, None)[0]: rates must
    be positive C ints; the samples themselves come from `resample`.
   */
  function Ratecv(frag: seq<byte>, w: int, inrate: int, outrate: int, resample: Resampler): (r: Option<seq<byte>>)
    ensures r.Some? <==> IsWidth(w) && |frag| % w == 0 && 0 < inrate <= IntMax && 0 < outrate <= IntMax
    ensures r.Some? ==> |r.value| % w == 0
  {
    if !IsWidth(w) || |frag| % w != 0 || !(0 < inrate <= IntMax && 0 < outrate <= IntMax) then None
    else Some(Fragment(resample(Samples(frag, w), w, inrate, outrate), w))
  }

  // ---------------------------------------------------------------------
  // What the operations do to samples

  /** Every mu-law byte becomes one sample holding its G.711 expansion. */
  lemma Ulaw2LinSamples(frag: seq<byte>, w: Width)
    ensures Ulaw2Lin(frag, w).Some?
    ensures var pcm := Ulaw2Lin(frag, w).value;
      |pcm| % w == 0 && Samples(pcm, w) == seq(|frag|, i requires 0 <= i < |frag| => Widen16(G711.UlawToLinear(frag[i]), w))
  {
    var ss := seq(|frag|, i requires 0 <= i < |frag| => Widen16(G711.UlawToLinear(frag[i]), w));
    assert forall i :: 0 <= i < |ss| ==> InRange(ss[i], w);
    SamplesOfFragment(ss, w);
  }

  /** audioop.bias with a zero bias returns its fragment unchanged. */
  lemma BiasZero(frag: seq<byte>, w: Width)
    requires |frag| % w == 0
    ensures Bias(frag, w, 0) == Some(frag)
  {
    var ss := Samples(frag, w);
    assert seq(|ss|, i requires 0 <= i < |ss| => ss[i] + 0) == ss;
    FragmentOfSamples(frag, w);
  }

  /** audioop.mul saturates each sample's product into the sample range. */
  lemma MulSamples(frag: seq<byte>, w: Width, factor: int)
    requires |frag| % w == 0
    ensures var r := Mul(frag, w, factor).value; var ss := Samples(frag, w);
      |r| % w == 0 && Samples(r, w) == seq(|ss|, i requires 0 <= i < |ss| => Clamp(ss[i] * factor, MinSample(w), MaxSample(w)))
  {
    var ss := Samples(frag, w);
    SamplesOfFragment(seq(|ss|, i requires 0 <= i < |ss| => Clamp(ss[i] * factor, MinSample(w), MaxSample(w))), w);
  }

  /** audioop.tomono: mono sample i is the saturated weighted sum of stereo samples 2i and 2i + 1. */
  lemma ToMonoSamples(frag: seq<byte>, w: Width, lfactor: int, rfactor: int)
    requires |frag| % w == 0 && (|frag| / w) % 2 == 0
    ensures var r := ToMono(frag, w, lfactor, rfactor).value; var ss := Samples(frag, w);
      && |r| % w == 0
      && 2 * |Samples(r, w)| == |ss|
      && Samples(r, w) == seq(|ss| / 2, i requires 0 <= i < |ss| / 2 => Mix(ss[2 * i], ss[2 * i + 1], lfactor, rfactor, w))
  {
    var ss := Samples(frag, w);
    assert |ss| % 2 == 0 by {
      SampleCount(frag, w);
    }
    var ms := seq(|ss| / 2, i requires 0 <= i < |ss| / 2 => Mix(ss[2 * i], ss[2 * i + 1], lfactor, rfactor, w));
    SamplesOfFragment(ms, w);
  }

  /** lin2ulaw emits the G.711 code of each sample, scaled to 14 bits. */
  lemma Lin2UlawOfFragment(ss: seq<int>, w: Width)
    requires forall i :: 0 <= i < |ss| ==> InRange(ss[i], w)
    ensures Lin2Ulaw(Fragment(ss, w), w) ==
      Some(seq(|ss|, i requires 0 <= i < |ss| => G711.LinearToUlaw(Narrow14(ss[i], w))))
  {
    SamplesOfFragment(ss, w);
  }

  /**
    rms < limit exactly when the sum of squares is below limit^2 per sample
    (or the fragment is empty).
   */
  lemma RmsBelow(frag: seq<byte>, w: Width, limit: nat)
    requires |frag| % w == 0 && limit > 0
    ensures var ss := Samples(frag, w);
      Rms(frag, w).value < limit <==> |ss| == 0 || SumSquares(ss) < limit * limit * |ss|
  {
    var ss := Samples(frag, w);
    if |ss| == 0 {
      assert Rms(frag, w) == Some(0);
    } else {
      assert Rms(frag, w) == Some(ISqrt(MeanSquare(ss)));
      MeanRootBelow(SumSquares(ss), |ss|, limit);
    }
  }

  lemma SquareMonotone(a: nat, b: nat)
    requires a <= b
    ensures a * a <= b * b
  {
    assert a * a <= a * b <= b * b;
  }
}
