# Telephony audio helpers and speech-service fallbacks, in Dafny

This project models the two pieces of logic in the voice bot that are more
than wiring.

- **The audio helpers of `audio_utils.py`** sit between Twilio media streams
  (raw 8 kHz mono G.711 mu-law, Base64 in each WebSocket message) and the
  speech service (16-bit PCM WAV).
  - `mulaw_to_wav` expands mu-law to 16-bit PCM and applies the noise gate:
    audio whose rms is below 500 is doubled, then `bias(..., 0)` is applied,
    which changes nothing.
  - `mulaw_to_wav` then resamples when the target rate is not 8000 and
    writes a mono 16-bit WAV.
  - `wav_to_mulaw` reads a WAV file and mixes exactly-two-channel audio down
    to mono. It resamples when the rate is not 8000 and encodes every sample
    as mu-law.
  - Both converters return empty bytes when anything raises.
  - `encode_mulaw_base64` and `decode_mulaw_base64` are Base64 as in section
    4 of RFC 4648.
- **The library code these helpers run on** is modelled as pure functions
  from the standards and from the behaviour of the CPython modules:
  - `G711`: ITU-T G.711 mu-law, in the form `audioop` computes it.
  - `Bytes`: little-endian integers.
  - `Audioop`: the `audioop` calls used, over 1- to 4-byte samples. Each
    returns `None` where `audioop.error` would be raised.
  - `Wave`: the RIFF/WAVE writer and chunk-walking reader of `wave`.
  - `Base64`: the padded encoder, and the non-strict `binascii.a2b_base64`
    decoder of Python 3.11 and later.
- **The client decisions of `sarvam_ai.py`**, with every HTTP exchange given
  as a reply value.
  - `speech_to_text` is a method with the source's loop and early `break`.
    It asks for each language in priority order and keeps the non-blank
    transcripts of status-200 replies. It returns the first one with its
    language, or `("", "te-IN")`.
  - `chat` and `text_to_speech` map each kind of reply to content or to a
    fixed fallback.

Files: `wrappers.dfy` (Option, Result), `bytes.dfy`, `g711.dfy`,
`audioop.dfy`, `wave.dfy`, `base64.dfy`, `audio_utils.dfy`, `sarvam_ai.dfy`.

`wav_to_mulaw` mixes stereo with `tomono(..., 1, 1)`: each mono sample is
the saturated sum of left and right, not their average
(`AudioUtils.WavToMulawStereo`).

## Model

| member | source | states |
|---|---|---|
| G711.UlawToLinear | audio_utils.py:28 | every mu-law code expands to a 16-bit sample within ±32124 |
| G711.LinearToUlaw | audio_utils.py:102 | the 14-bit compressor `lin2ulaw` applies puts non-negative values in codes 0x80-0xFF and negative ones in 0x00-0x7F; UlawRoundTrip pins the rest of its meaning |
| G711.UlawSignSymmetry | audio_utils.py:28 | two codes that differ only in the sign bit expand to opposite samples |
| G711.UlawRoundTrip | audio_utils.py:102 | compressing a code's expansion, scaled to 14 bits, gives the code back; 0x7F (negative zero) comes back as 0xFF |
| Bytes.LeValueOfLeBytes | audio_utils.py:56-61 | writing a value below 256^n as n little-endian bytes and reading it back gives the value |
| Bytes.LeBytesOfLeValue | audio_utils.py:83-87 | reading n little-endian bytes and writing the value back gives the same bytes |
| Audioop.Sample | audio_utils.py:28 | a 1- to 4-byte little-endian signed sample lies in that width's signed range |
| Audioop.SampleOfSampleBytes | audio_utils.py:28 | storing an in-range sample and reading it back gives the sample |
| Audioop.SampleBytesOfSample | audio_utils.py:84 | reading a sample and storing it back gives the same bytes |
| Audioop.Samples | audio_utils.py:84 | a fragment of whole samples holds one in-range sample per `w` bytes |
| Audioop.SamplesOfFragment | audio_utils.py:28 | samples packed into a fragment unpack to the same samples |
| Audioop.FragmentOfSamples | audio_utils.py:84 | a fragment unpacked and packed again is the same fragment |
| Audioop.Ulaw2Lin | audio_utils.py:28 | ulaw2lin fails only for a width outside 1..4; it yields `w` bytes per mu-law byte |
| Audioop.Ulaw2LinSamples | audio_utils.py:28 | sample i of ulaw2lin is the G.711 expansion of byte i, widened to the width |
| Audioop.Lin2Ulaw | audio_utils.py:102 | lin2ulaw fails exactly for a bad width or a partial sample; it yields one byte per sample |
| Audioop.Lin2UlawOfFragment | audio_utils.py:102 | byte i of lin2ulaw is the G.711 code of sample i scaled to 14 bits |
| Audioop.ISqrt | audio_utils.py:33 | r is the integer square root: r² ≤ n < (r+1)² |
| Audioop.Rms | audio_utils.py:33 | rms fails exactly for a bad width or a partial sample |
| Audioop.RmsBelow | audio_utils.py:33-36 | rms < limit exactly when the fragment is empty or the sum of squares is below limit² per sample |
| Audioop.Mul | audio_utils.py:39 | mul fails exactly for a bad width or a partial sample, and keeps the length |
| Audioop.MulSamples | audio_utils.py:39 | each sample of mul is the product clamped to the sample range |
| Audioop.Bias | audio_utils.py:47 | bias fails exactly for a bad width or a partial sample, and keeps the length |
| Audioop.BiasZero | audio_utils.py:47 | bias by 0 returns the fragment unchanged |
| Audioop.ToMono | audio_utils.py:93 | tomono fails exactly for a bad width, a partial sample or an odd sample count |
| Audioop.ToMonoSamples | audio_utils.py:93 | mono sample i is the saturated weighted sum of stereo samples 2i and 2i+1, with half as many samples |
| Audioop.Ratecv | audio_utils.py:98 | ratecv fails exactly for a bad width, a partial sample or a rate that is not a positive C int; its output is whole samples |
| Wave.Write | audio_utils.py:56-63 | the writer succeeds exactly when `wave` and `struct.pack` accept the parameters and length; the file is a 44-byte header followed by the frames |
| Wave.File | audio_utils.py:56-63 | the file written is 44 bytes of header followed by exactly the frames |
| Wave.ReadFmt | audio_utils.py:83-87 | a fmt chunk that is read has a nonzero channel count and sample width |
| Wave.ReadFmtOfBody | audio_utils.py:83-87 | the fmt chunk the writer emits reads back as the parameters written |
| Wave.FmtLayout | audio_utils.py:57-60 | the fmt chunk holds the format tag, the channel count, the rate and the bits per sample at the offsets the reader takes them from |
| Wave.Parse | audio_utils.py:83-87 | a file that opens has a nonzero channel count and sample width |
| Wave.WholeFrameBytes | audio_utils.py:84 | readframes(getnframes()) takes the data chunk's size less its partial frame (size - size % frame size) |
| Wave.ParseWrite | audio_utils.py:56-63 | a file written with whole frames reads back with the same parameters and frames |
| Base64.Encode | audio_utils.py:114 | the encoding of n bytes is 4⌈n/3⌉ ASCII characters |
| Base64.Decode | audio_utils.py:119 | decoding a str fails with the non-ASCII error exactly when a character is not ASCII |
| Base64.DecodeEncode | audio_utils.py:112-119 | decoding the encoding of any byte string gives it back |
| AudioUtils.NoiseGate | audio_utils.py:31-49 | the noise gate fails exactly on a partial 16-bit sample and keeps the length |
| AudioUtils.QuietMeans | audio_utils.py:33-36 | audio is quiet exactly when it is empty or its sum of squares is below 500² per sample |
| AudioUtils.NoiseGateQuiet | audio_utils.py:36-42 | on quiet audio every sample becomes 2s clamped to [-32768, 32767] |
| AudioUtils.QuietGate | audio_utils.py:36-49 | on quiet audio the noise gate is the same as `mul` by 2 |
| AudioUtils.NoiseGateLoud | audio_utils.py:44-49 | on other audio the gate, including `bias(..., 0)`, changes nothing |
| AudioUtils.MulawToPcm | audio_utils.py:26-53 | the PCM exists exactly when the target rate is 8000 or a positive C int; it is whole 16-bit samples, and at 8000 it is twice the input's length |
| AudioUtils.MulawToPcmSamples | audio_utils.py:28 | without noise reduction at 8000 Hz, sample i is the G.711 expansion of byte i |
| AudioUtils.MulawToWav | audio_utils.py:19-69 | a non-empty result is at least a 44-byte header long |
| AudioUtils.MulawToWavFails | audio_utils.py:52-69 | mulaw_to_wav returns empty bytes exactly when the target rate is not a positive C int or the PCM is too long for the RIFF size field |
| AudioUtils.MulawToWavReadsBack | audio_utils.py:55-61 | a non-empty result reads back as 1 channel, 2-byte samples, the target rate, and the processed PCM as its frames |
| AudioUtils.ToTwilio | audio_utils.py:80-105 | a conversion that succeeds came from a file that opens with a sample width audioop accepts |
| AudioUtils.WavToMulaw | audio_utils.py:72-109 | a file that does not open gives empty bytes |
| AudioUtils.ToTwilioFails | audio_utils.py:80-109 | wav_to_mulaw gives up exactly when the file does not open, the width is refused, the frames end in a partial sample, stereo has an odd sample count, or a rate other than 8000 is not a positive C int |
| AudioUtils.WavToMulawBadWidth | audio_utils.py:102-109 | a file whose sample width audioop refuses gives empty bytes |
| AudioUtils.WavToMulawDirect | audio_utils.py:92-102 | at 8000 Hz with any channel count but two, byte i is the G.711 code of sample i, with no mixing or resampling |
| AudioUtils.WavToMulawStereo | audio_utils.py:92-93 | at 8000 Hz in stereo, byte i encodes the saturated sum, not the average, of left and right sample i |
| AudioUtils.StereoEncode | audio_utils.py:92-105 | the mu-law of a stereo fragment mixed with factors 1 and 1 is the code of each pair's saturated sum |
| AudioUtils.WavToMulawResampled | audio_utils.py:97-102 | at another rate and any channel count but two, the samples are resampled from the file's rate to 8000, and one mu-law byte comes out per resampled sample |
| AudioUtils.WavToMulawStereoResampled | audio_utils.py:92-102 | stereo at another rate: the 1-and-1 mix of each sample pair is resampled from the file's rate to 8000, and one mu-law byte comes out per resampled sample |
| AudioUtils.StereoResamplePath | audio_utils.py:92-102 | stereo at another rate: the mix goes to `ratecv` and its output, whole samples, to `lin2ulaw` |
| AudioUtils.EncodedLength | audio_utils.py:102 | `lin2ulaw` of a whole fragment succeeds with one byte per sample |
| AudioUtils.WavToMulawOfMulawToWav | audio_utils.py:26-105 | at 8000 Hz, with noise reduction off or leaving the audio alone, wav_to_mulaw(mulaw_to_wav(m)) is m with 0x7F replaced by 0xFF |
| SarvamAI.HasNonSpaceMeans | sarvam_ai.py:63 | a transcript counts as non-blank exactly when some character is not Python whitespace |
| SarvamAI.Languages | sarvam_ai.py:39-44 | the languages tried are te-IN, hi-IN, en-IN when none is given, else only the given one |
| SarvamAI.FirstUsable | sarvam_ai.py:52-85 | the position of the first status-200, non-blank reply: every earlier reply is unusable |
| SarvamAI.FirstRaised | sarvam_ai.py:95-97 | the position of the first reply that raises: every earlier reply is an answer |
| SarvamAI.SpeechToText | sarvam_ai.py:31-97 | a raise before the result is settled gives ("", "te-IN"); otherwise the first usable transcript and its language, or ("", "te-IN") when none is usable; with no language every language is asked, with one the asking stops at a usable transcript; the text is empty or not blank |
| SarvamAI.Chat | sarvam_ai.py:99-133 | status 200 gives the first choice's content, another status the "trouble" reply, an exception or a missing content path the "error" reply |
| SarvamAI.ChatContent | sarvam_ai.py:120-125 | an answer other than the two fixed replies is the content of a status-200 response |
| SarvamAI.TextToSpeech | sarvam_ai.py:135-168 | a status-200 response whose first audio decodes gives exactly the decoding; non-empty audio always comes from such a response; a raise, another status or a missing audio gives empty bytes |
| SarvamAI.TextToSpeechDecodes | sarvam_ai.py:154-160 | audio sent Base64-encoded with status 200 comes back byte for byte |

## Left out

- Network, session and logging. Out of scope: `SarvamAI.get_session`, `close`, the API key and URLs, and request payloads, headers and timeouts. Each HTTP exchange is a reply value. `async`/`await` and every `logger` call are also left out.
- `bot.py` and `twilio_server.py` are not part of this model. They wire pipeline objects, webhooks and a WebSocket loop that only logs.
- SarvamAI.SpeechToText: the audio bytes only go into the request, so the reply function stands for the service's answers to this audio. A `transcript` that is not a string (JSON null or a number) is not modelled. The length kept with each stored result is unused by the source and is not kept.
- SarvamAI.Chat: a `content` that is JSON null (returned as None) is not modelled, and neither is the `messages` payload.
- SarvamAI.TextToSpeech: the text and language arguments only go into the request. An audio field of type bytes is not modelled.
- Audioop.Ratecv: the interpolation inside `audioop.ratecv` is a caller-supplied `Resampler` function. The converter state it returns is dropped, as the source drops it. Only the one-channel call the helpers make is modelled.
- Audioop.Rms: the exact integer square root of the integer mean is used. CPython takes a double-precision square root, which can round differently for very large sums.
- Audioop.Mul: the factor is an integer. The source passes 2.0, which a double holds exactly.
- Wave.ReadFmt: the WAVE_FORMAT_EXTENSIBLE format tag, which newer `wave` versions accept, is treated as an unknown format and fails.
- Wave.Parse: 8-bit WAV samples are unsigned, but `audioop` reads them as signed. The model does the same and applies no conversion.
- AudioUtils.MulawToWav: the Python defaults (target rate 16000, noise reduction on) are ordinary arguments.
- Base64.Decode: models the decoder of Python 3.11 and later. Older versions look ahead for padding differently on malformed input. Decoding a `bytes` argument is not modelled.
