/**
  The audio helpers between Twilio media streams (8 kHz mono mu-law, Base64
  in the WebSocket messages) and the speech service (16-bit PCM WAV):
  mulaw_to_wav, wav_to_mulaw and the Base64 wrappers.  Every exception the
  helpers catch becomes the empty byte string, as in the source.
 */
module AudioUtils {
  import opened Bytes
  import opened Wrappers
  import G711
  import Audioop
  import Wave

  /** The rate of Twilio's media streams. */
  const TwilioRate := 8000

  /** The rms below which mulaw_to_wav treats audio as quiet and doubles it. */
  const QuietRms := 500

  /** The value of an audioop call that is wrapped in `except audioop.error: pass`. */
  function OrElse(r: Option<seq<byte>>, fallback: seq<byte>): seq<byte>
  {
    if r.Some? then r.value else fallback
  }

  /** Whether 16-bit audio is quiet enough for the noise gate to amplify it. */
  predicate Quiet(pcm: seq<byte>)
    requires |pcm| % 2 == 0
  {
    Audioop.Rms(pcm, 2).value < QuietRms
  }

  /** Whether the 16-bit expansion of a mu-law string is quiet. */
  predicate QuietExpansion(mulaw: seq<byte>)
  {
    var linear := Audioop.Ulaw2Lin(mulaw, 2).value;
    assert |linear| % 2 == 0;
    Quiet(linear)
  }

  /**
    The noise reduction of mulaw_to_wav on 16-bit PCM: audio whose rms is
    below 500 is multiplied by 2, then a bias of 0 is added.
   */
  function NoiseGate(pcm: seq<byte>): (r: Option<seq<byte>>)
    ensures r.Some? <==> |pcm| % 2 == 0
    ensures r.Some? ==> |r.value| == |pcm|
  {
    var rms :- Audioop.Rms(pcm, 2);
    var louder := if rms < QuietRms then OrElse(Audioop.Mul(pcm, 2, 2), pcm) else pcm;
    Some(OrElse(Audioop.Bias(louder, 2, 0), louder))
  }

  /** mulaw_to_wav before the WAV writer: the 16-bit PCM it writes, None where it raises. */
  function MulawToPcm(mulaw: seq<byte>, targetRate: int, denoise: bool, resample: Audioop.Resampler): (pcm: Option<seq<byte>>)
    ensures pcm.Some? <==> targetRate == TwilioRate || 0 < targetRate <= Audioop.IntMax
    ensures pcm.Some? ==> |pcm.value| % 2 == 0
    ensures pcm.Some? && targetRate == TwilioRate ==> |pcm.value| == 2 * |mulaw|
  {
    var linear := Audioop.Ulaw2Lin(mulaw, 2).value;
    var gated := if denoise then NoiseGate(linear).value else linear;
    if targetRate != TwilioRate then Audioop.Ratecv(gated, 2, TwilioRate, targetRate, resample)
    else Some(gated)
  }

  /** The WAV parameters mulaw_to_wav writes: mono, 16-bit, at the target rate. */
  function PcmParams(targetRate: int): Wave.Params
    requires targetRate > 0
  {
    Wave.Params(1, 2, targetRate)
  }

  /**
    mulaw_to_wav(mulaw_data, target_rate, apply_noise_reduction): the bytes
    of a mono 16-bit WAV file, or the empty string where anything raises.
   */
  function MulawToWav(mulaw: seq<byte>, targetRate: int, denoise: bool, resample: Audioop.Resampler): (wav: seq<byte>)
    ensures wav != [] ==> |wav| >= 44
  {
    match MulawToPcm(mulaw, targetRate, denoise, resample)
    case None => []
    case Some(pcm) =>
      // MulawToPcm is None for a rate that is not positive; this test only meets PcmParams' requires
      if targetRate <= 0 then []
      else OrElse(Wave.Write(PcmParams(targetRate), pcm), [])
  }

  /**
    wav_to_mulaw before its exception handler: read the file, mix stereo
    down with factors 1 and 1, resample to 8 kHz unless already there, and
    encode each sample as mu-law; None where anything raises.
   */
  function ToTwilio(wav: seq<byte>, resample: Audioop.Resampler): (r: Option<seq<byte>>)
    ensures r.Some? ==> Wave.Parse(wav).Some? && Audioop.IsWidth(Wave.Parse(wav).value.params.sampleWidth)
  {
    var info :- Wave.Parse(wav);
    var w, rate := info.params.sampleWidth, info.params.frameRate;
    var mono :- if info.params.channels == 2 then Audioop.ToMono(info.frames, w, 1, 1) else Some(info.frames);
    var pcm :- if rate != TwilioRate then Audioop.Ratecv(mono, w, rate, TwilioRate, resample) else Some(mono);
    Audioop.Lin2Ulaw(pcm, w)
  }

  /** wav_to_mulaw(wav_data): raw 8 kHz mu-law bytes, or the empty string where anything raises. */
  function WavToMulaw(wav: seq<byte>, resample: Audioop.Resampler): (mulaw: seq<byte>)
    ensures Wave.Parse(wav).None? ==> mulaw == []
  {
    OrElse(ToTwilio(wav, resample), [])
  }

  // ---------------------------------------------------------------------
  // mulaw_to_wav

  /** Without noise reduction at 8 kHz, sample i is the G.711 expansion of byte i. */
  lemma MulawToPcmSamples(mulaw: seq<byte>, resample: Audioop.Resampler)
    ensures var pcm := MulawToPcm(mulaw, TwilioRate, false, resample).value;
      |pcm| % 2 == 0 && Audioop.Samples(pcm, 2) == seq(|mulaw|, i requires 0 <= i < |mulaw| => G711.UlawToLinear(mulaw[i]))
  {
    Audioop.Ulaw2LinSamples(mulaw, 2);
    var ss := seq(|mulaw|, i requires 0 <= i < |mulaw| => Audioop.Widen16(G711.UlawToLinear(mulaw[i]), 2));
    assert ss == seq(|mulaw|, i requires 0 <= i < |mulaw| => G711.UlawToLinear(mulaw[i]));
  }

  /** Audio is quiet exactly when its mean square is below 500 squared (or it is empty). */
  lemma QuietMeans(pcm: seq<byte>)
    requires |pcm| % 2 == 0
    ensures var ss := Audioop.Samples(pcm, 2);
      Quiet(pcm) <==> |ss| == 0 || Audioop.SumSquares(ss) < QuietRms * QuietRms * |ss|
  {
    Audioop.RmsBelow(pcm, 2, QuietRms);
  }

  /** The noise gate doubles every sample of quiet audio, saturating at the 16-bit range. */
  lemma NoiseGateQuiet(pcm: seq<byte>)
    requires |pcm| % 2 == 0 && Quiet(pcm)
    ensures var r := NoiseGate(pcm).value; var ss := Audioop.Samples(pcm, 2);
      |r| % 2 == 0 && Audioop.Samples(r, 2) == seq(|ss|, i requires 0 <= i < |ss| => Audioop.Clamp(ss[i] * 2, -0x8000, 0x7FFF))
  {
    QuietGate(pcm);
    Audioop.MulSamples(pcm, 2, 2);
  }

  /** On quiet audio the noise gate is audioop.mul by 2: the bias of 0 changes nothing. */
  lemma QuietGate(pcm: seq<byte>)
    requires |pcm| % 2 == 0 && Quiet(pcm)
    ensures NoiseGate(pcm) == Audioop.Mul(pcm, 2, 2)
  {
    Audioop.BiasZero(Audioop.Mul(pcm, 2, 2).value, 2);
  }

  /** The noise gate leaves audio that is not quiet as it is: the bias of 0 changes nothing. */
  lemma NoiseGateLoud(pcm: seq<byte>)
    requires |pcm| % 2 == 0 && !Quiet(pcm)
    ensures NoiseGate(pcm) == Some(pcm)
  {
    Audioop.BiasZero(pcm, 2);
  }

  /**
    mulaw_to_wav fails exactly when the target rate is not a positive C int
    or the PCM is too long for the RIFF size field.
   */
  lemma MulawToWavFails(mulaw: seq<byte>, targetRate: int, denoise: bool, resample: Audioop.Resampler)
    ensures MulawToWav(mulaw, targetRate, denoise, resample) == [] <==>
      !(0 < targetRate <= Audioop.IntMax) || 36 + |MulawToPcm(mulaw, targetRate, denoise, resample).value| >= 0x1_0000_0000
  {
  }

  /** A WAV that mulaw_to_wav produces reads back as mono 16-bit audio at the target rate holding its PCM. */
  lemma MulawToWavReadsBack(mulaw: seq<byte>, targetRate: int, denoise: bool, resample: Audioop.Resampler)
    requires MulawToWav(mulaw, targetRate, denoise, resample) != []
    ensures Wave.Parse(MulawToWav(mulaw, targetRate, denoise, resample)) ==
      Some(Wave.WavInfo(Wave.Params(1, 2, targetRate), MulawToPcm(mulaw, targetRate, denoise, resample).value))
  {
    var pcm := MulawToPcm(mulaw, targetRate, denoise, resample).value;
    Wave.ParseWrite(PcmParams(targetRate), pcm);
  }

  // ---------------------------------------------------------------------
  // wav_to_mulaw

  /** A file whose sample width audioop refuses yields the empty string. */
  lemma WavToMulawBadWidth(wav: seq<byte>, resample: Audioop.Resampler)
    requires Wave.Parse(wav).Some? && !Audioop.IsWidth(Wave.Parse(wav).value.params.sampleWidth)
    ensures WavToMulaw(wav, resample) == []
  {
  }

  /** Any channel count but two at 8 kHz: the frames go to lin2ulaw untouched. */
  lemma DirectPath(wav: seq<byte>, resample: Audioop.Resampler, channels: nat, w: Audioop.Width, frames: seq<byte>)
    requires Wave.Parse(wav) == Some(Wave.WavInfo(Wave.Params(channels, w, TwilioRate), frames))
    requires channels != 2
    ensures ToTwilio(wav, resample) == Audioop.Lin2Ulaw(frames, w)
  {
  }

  /** Mono (or any count but two channels) at 8 kHz: one mu-law byte per sample, no resampling. */
  lemma WavToMulawDirect(wav: seq<byte>, resample: Audioop.Resampler, channels: nat, w: Audioop.Width, frames: seq<byte>)
    requires Wave.Parse(wav) == Some(Wave.WavInfo(Wave.Params(channels, w, TwilioRate), frames))
    requires channels != 2 && |frames| % w == 0
    ensures var ss := Audioop.Samples(frames, w);
      WavToMulaw(wav, resample) == seq(|ss|, i requires 0 <= i < |ss| => G711.LinearToUlaw(Audioop.Narrow14(ss[i], w)))
  {
    DirectPath(wav, resample, channels, w, frames);
    Audioop.FragmentOfSamples(frames, w);
    Audioop.Lin2UlawOfFragment(Audioop.Samples(frames, w), w);
  }

  /** Stereo at 8 kHz: the frames are mixed down with factors 1 and 1, then go to lin2ulaw. */
  lemma StereoPath(wav: seq<byte>, resample: Audioop.Resampler, w: Audioop.Width, frames: seq<byte>)
    requires Wave.Parse(wav) == Some(Wave.WavInfo(Wave.Params(2, w, TwilioRate), frames))
    requires |frames| % w == 0 && (|frames| / w) % 2 == 0
    ensures ToTwilio(wav, resample) == Audioop.Lin2Ulaw(Audioop.ToMono(frames, w, 1, 1).value, w)
  {
  }

  /** Stereo mixed with factors 1 and 1 is the saturated sum of the two channels, not their average. */
  lemma MixIsSum(left: int, right: int, w: Audioop.Width)
    ensures Audioop.Mix(left, right, 1, 1, w) == Audioop.Clamp(left + right, Audioop.MinSample(w), Audioop.MaxSample(w))
  {
  }

  /**
    Stereo at 8 kHz: mono sample i is the saturated sum (not the average)
    of left and right sample i, then encoded as mu-law.
   */
  lemma WavToMulawStereo(wav: seq<byte>, resample: Audioop.Resampler, w: Audioop.Width, frames: seq<byte>)
    requires Wave.Parse(wav) == Some(Wave.WavInfo(Wave.Params(2, w, TwilioRate), frames))
    requires |frames| % w == 0 && (|frames| / w) % 2 == 0
    ensures var ss := Audioop.Samples(frames, w);
      WavToMulaw(wav, resample) == seq(|ss| / 2, i requires 0 <= i < |ss| / 2 =>
        G711.LinearToUlaw(Audioop.Narrow14(Audioop.Clamp(ss[2 * i] + ss[2 * i + 1], Audioop.MinSample(w), Audioop.MaxSample(w)), w)))
  {
    StereoPath(wav, resample, w, frames);
    StereoEncode(frames, w);
  }

  /** The 1-and-1 mix of a stereo fragment, encoded: the codes of the saturated sums of each pair. */
  lemma StereoEncode(frames: seq<byte>, w: Audioop.Width)
    requires |frames| % w == 0 && (|frames| / w) % 2 == 0
    ensures var ss := Audioop.Samples(frames, w);
      Audioop.Lin2Ulaw(Audioop.ToMono(frames, w, 1, 1).value, w) == Some(seq(|ss| / 2, i requires 0 <= i < |ss| / 2 =>
        G711.LinearToUlaw(Audioop.Narrow14(Audioop.Clamp(ss[2 * i] + ss[2 * i + 1], Audioop.MinSample(w), Audioop.MaxSample(w)), w))))
  {
    var ss := Audioop.Samples(frames, w);
    var ms := seq(|ss| / 2, i requires 0 <= i < |ss| / 2 => Audioop.Mix(ss[2 * i], ss[2 * i + 1], 1, 1, w));
    var codes := seq(|ms|, i requires 0 <= i < |ms| => G711.LinearToUlaw(Audioop.Narrow14(ms[i], w)));
    assert Audioop.Lin2Ulaw(Audioop.ToMono(frames, w, 1, 1).value, w) == Some(codes) by {
      assert Audioop.ToMono(frames, w, 1, 1) == Some(Audioop.Fragment(ms, w));
      Audioop.Lin2UlawOfFragment(ms, w);
    }
    EncodeSums(ss, w);
  }

  /** Encoding the 1-and-1 mix of sample pairs is encoding their saturated sums. */
  lemma EncodeSums(ss: seq<int>, w: Audioop.Width)
    requires forall i :: 0 <= i < |ss| ==> Audioop.InRange(ss[i], w)
    ensures var ms := seq(|ss| / 2, i requires 0 <= i < |ss| / 2 => Audioop.Mix(ss[2 * i], ss[2 * i + 1], 1, 1, w));
      seq(|ms|, i requires 0 <= i < |ms| => G711.LinearToUlaw(Audioop.Narrow14(ms[i], w))) ==
      seq(|ss| / 2, i requires 0 <= i < |ss| / 2 =>
        G711.LinearToUlaw(Audioop.Narrow14(Audioop.Clamp(ss[2 * i] + ss[2 * i + 1], Audioop.MinSample(w), Audioop.MaxSample(w)), w)))
  {
    forall i | 0 <= i < |ss| / 2
      ensures Audioop.Mix(ss[2 * i], ss[2 * i + 1], 1, 1, w) == Audioop.Clamp(ss[2 * i] + ss[2 * i + 1], Audioop.MinSample(w), Audioop.MaxSample(w))
    {
      MixIsSum(ss[2 * i], ss[2 * i + 1], w);
    }
  }

  /**
    Audio at another rate (and not stereo) is resampled from its own rate to
    8 kHz before encoding, and yields one mu-law byte per resampled sample.
   */
  lemma WavToMulawResampled(wav: seq<byte>, resample: Audioop.Resampler, channels: nat, w: Audioop.Width, rate: nat, frames: seq<byte>)
    requires Wave.Parse(wav) == Some(Wave.WavInfo(Wave.Params(channels, w, rate), frames))
    requires channels != 2 && |frames| % w == 0 && rate != TwilioRate && 0 < rate <= Audioop.IntMax
    ensures var out := resample(Audioop.Samples(frames, w), w, rate, TwilioRate);
      ToTwilio(wav, resample) == Audioop.Lin2Ulaw(Audioop.Fragment(out, w), w)
      && |WavToMulaw(wav, resample)| == |out|
  {
    var out := resample(Audioop.Samples(frames, w), w, rate, TwilioRate);
    var pcm := Audioop.Fragment(out, w);
    assert Audioop.Ratecv(frames, w, rate, TwilioRate, resample) == Some(pcm);
    assert |pcm| == |out| * w;
  }

  /**
    Stereo at another rate: the frames are mixed down with factors 1 and 1,
    the mixed samples are resampled from the file's rate to 8 kHz, and one
    mu-law byte comes out per resampled sample.
   */
  lemma WavToMulawStereoResampled(wav: seq<byte>, resample: Audioop.Resampler, w: Audioop.Width, rate: nat, frames: seq<byte>)
    requires Wave.Parse(wav) == Some(Wave.WavInfo(Wave.Params(2, w, rate), frames))
    requires |frames| % w == 0 && (|frames| / w) % 2 == 0 && rate != TwilioRate && 0 < rate <= Audioop.IntMax
    ensures var ss := Audioop.Samples(frames, w);
      var mixed := seq(|ss| / 2, i requires 0 <= i < |ss| / 2 => Audioop.Mix(ss[2 * i], ss[2 * i + 1], 1, 1, w));
      var out := resample(mixed, w, rate, TwilioRate);
      ToTwilio(wav, resample) == Audioop.Lin2Ulaw(Audioop.Fragment(out, w), w)
      && |WavToMulaw(wav, resample)| == |out|
  {
    var ss := Audioop.Samples(frames, w);
    var mixed := seq(|ss| / 2, i requires 0 <= i < |ss| / 2 => Audioop.Mix(ss[2 * i], ss[2 * i + 1], 1, 1, w));
    var out := resample(mixed, w, rate, TwilioRate);
    StereoResamplePath(wav, resample, w, rate, frames);
    EncodedLength(Audioop.Fragment(out, w), out, w);
  }

  /** Stereo at another rate: the 1-and-1 mix goes to ratecv, and its output to lin2ulaw. */
  lemma StereoResamplePath(wav: seq<byte>, resample: Audioop.Resampler, w: Audioop.Width, rate: nat, frames: seq<byte>)
    requires Wave.Parse(wav) == Some(Wave.WavInfo(Wave.Params(2, w, rate), frames))
    requires |frames| % w == 0 && (|frames| / w) % 2 == 0 && rate != TwilioRate && 0 < rate <= Audioop.IntMax
    ensures var ss := Audioop.Samples(frames, w);
      var mixed := seq(|ss| / 2, i requires 0 <= i < |ss| / 2 => Audioop.Mix(ss[2 * i], ss[2 * i + 1], 1, 1, w));
      ToTwilio(wav, resample) == Audioop.Lin2Ulaw(Audioop.Fragment(resample(mixed, w, rate, TwilioRate), w), w)
      && |Audioop.Fragment(resample(mixed, w, rate, TwilioRate), w)| % w == 0
  {
    var ss := Audioop.Samples(frames, w);
    var mixed := seq(|ss| / 2, i requires 0 <= i < |ss| / 2 => Audioop.Mix(ss[2 * i], ss[2 * i + 1], 1, 1, w));
    var mono := Audioop.Fragment(mixed, w);
    assert Audioop.ToMono(frames, w, 1, 1) == Some(mono);
    Audioop.SamplesOfFragment(mixed, w);
    assert Audioop.Ratecv(mono, w, rate, TwilioRate, resample) == Some(Audioop.Fragment(resample(mixed, w, rate, TwilioRate), w));
  }

  /** lin2ulaw gives one byte per sample of a whole fragment. */
  lemma EncodedLength(pcm: seq<byte>, out: seq<int>, w: Audioop.Width)
    requires |pcm| == |out| * w && |pcm| % w == 0
    ensures Audioop.Lin2Ulaw(pcm, w).Some? && |Audioop.Lin2Ulaw(pcm, w).value| == |out|
  {
    var n := |Audioop.Lin2Ulaw(pcm, w).value|;
    assert n * w == |out| * w;
  }

  /**
    wav_to_mulaw gives up (returns b"") exactly when the file does not
    open, audioop refuses its sample width, the frames end in a partial
    sample, stereo frames hold an odd number of samples, or a rate other
    than 8 kHz is not a positive C int.
   */
  lemma ToTwilioFails(wav: seq<byte>, resample: Audioop.Resampler)
    ensures ToTwilio(wav, resample).None? <==>
      Wave.Parse(wav).None? ||
      (var info := Wave.Parse(wav).value; var w, rate := info.params.sampleWidth, info.params.frameRate;
        || !Audioop.IsWidth(w) || |info.frames| % w != 0
        || (info.params.channels == 2 && (|info.frames| / w) % 2 != 0)
        || (rate != TwilioRate && !(0 < rate <= Audioop.IntMax)))
  {
    if Wave.Parse(wav).Some? {
      var info := Wave.Parse(wav).value;
      var w := info.params.sampleWidth;
      if Audioop.IsWidth(w) && |info.frames| % w == 0 && info.params.channels == 2 && (|info.frames| / w) % 2 == 0 {
        Audioop.ToMonoSamples(info.frames, w, 1, 1);
      }
    }
  }

  /** The G.711 expansion of a mu-law string, re-encoded as 16-bit samples, gives it back but for 0x7F. */
  lemma ReencodeExpansion(mulaw: seq<byte>)
    ensures var ss := seq(|mulaw|, i requires 0 <= i < |mulaw| => G711.UlawToLinear(mulaw[i]));
      seq(|ss|, i requires 0 <= i < |ss| => G711.LinearToUlaw(Audioop.Narrow14(ss[i], 2)))
      == seq(|mulaw|, i requires 0 <= i < |mulaw| => if mulaw[i] == 0x7F then 0xFF else mulaw[i])
  {
    forall i | 0 <= i < |mulaw|
      ensures G711.LinearToUlaw(Audioop.Narrow14(G711.UlawToLinear(mulaw[i]), 2)) == if mulaw[i] == 0x7F then 0xFF else mulaw[i]
    {
      G711.UlawRoundTrip(mulaw[i]);
    }
  }

  /** At 8 kHz, with the noise gate off or leaving the audio alone, the PCM is the plain expansion. */
  lemma PlainPcm(mulaw: seq<byte>, denoise: bool, resample: Audioop.Resampler)
    requires denoise ==> !QuietExpansion(mulaw)
    ensures MulawToPcm(mulaw, TwilioRate, denoise, resample) == Audioop.Ulaw2Lin(mulaw, 2)
  {
    if denoise {
      NoiseGateLoud(Audioop.Ulaw2Lin(mulaw, 2).value);
    }
  }

  /**
    The round trip through the speech service's format: mu-law written to an
    8 kHz WAV and read back gives every byte back, except that 0x7F (the
    second code for zero) comes back as 0xFF.  With noise reduction on this
    holds for audio the gate leaves alone.
   */
  lemma WavToMulawOfMulawToWav(mulaw: seq<byte>, denoise: bool, resample: Audioop.Resampler)
    requires 36 + 2 * |mulaw| < 0x1_0000_0000
    requires denoise ==> !QuietExpansion(mulaw)
    ensures WavToMulaw(MulawToWav(mulaw, TwilioRate, denoise, resample), resample) ==
      seq(|mulaw|, i requires 0 <= i < |mulaw| => if mulaw[i] == 0x7F then 0xFF else mulaw[i])
  {
    var linear := Audioop.Ulaw2Lin(mulaw, 2).value;
    var wav := MulawToWav(mulaw, TwilioRate, denoise, resample);
    PlainPcm(mulaw, denoise, resample);
    MulawToWavReadsBack(mulaw, TwilioRate, denoise, resample);
    MulawToPcmSamples(mulaw, resample);
    WavToMulawDirect(wav, resample, 1, 2, linear);
    ReencodeExpansion(mulaw);
  }
}
