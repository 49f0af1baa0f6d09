/**
  The RIFF/WAVE container as Python's `wave` module writes and reads it:
  a RIFF chunk whose body starts with "WAVE" and holds a 16-byte PCM "fmt "
  chunk and a "data" chunk, every integer little-endian.
 */
module Wave {
  import opened Bytes
  import opened Wrappers

  /** WAVE_FORMAT_PCM, the only format tag the model reads. */
  const PcmFormat := 1

  const RiffId: seq<byte> := [0x52, 0x49, 0x46, 0x46]  // "RIFF"
  const WaveId: seq<byte> := [0x57, 0x41, 0x56, 0x45]  // "WAVE"
  const FmtId: seq<byte> := [0x66, 0x6D, 0x74, 0x20]   // "fmt "
  const DataId: seq<byte> := [0x64, 0x61, 0x74, 0x61]  // "data"

  /** getnchannels, getsampwidth (in bytes) and getframerate. */
  datatype Params = Params(channels: nat, sampleWidth: nat, frameRate: nat)

  /** An opened file: its parameters and what readframes(getnframes()) returns. */
  datatype WavInfo = WavInfo(params: Params, frames: seq<byte>)

  function Min(a: int, b: int): int { if a < b then a else b }

  // ---------------------------------------------------------------------
  // Writing

  /**
    Whether Wave_write accepts the parameters (setnchannels, setsampwidth,
    setframerate) and struct.pack can store every header field of a file
    holding `dataLength` bytes of frames.
   */
  predicate Writable(p: Params, dataLength: nat)
  {
    && 1 <= p.channels < 0x1_0000
    && 1 <= p.sampleWidth <= 4
    && 0 < p.frameRate < 0x1_0000_0000
    && p.channels * p.frameRate * p.sampleWidth < 0x1_0000_0000
    && p.channels * p.sampleWidth < 0x1_0000
    && 36 + dataLength < 0x1_0000_0000
  }

  /** The 16 bytes of the PCM fmt chunk. */
  function FmtBody(p: Params): (b: seq<byte>)
    ensures |b| == 16
  {
    LeBytes(PcmFormat, 2) + (LeBytes(p.channels, 2)
    + (LeBytes(p.frameRate, 4) + (LeBytes(p.channels * p.frameRate * p.sampleWidth, 4)
    + (LeBytes(p.channels * p.sampleWidth, 2) + LeBytes(p.sampleWidth * 8, 2)))))
  }

  /** The RIFF body `wave` writes: "WAVE", the fmt chunk, then the data chunk. */
  function Body(p: Params, frames: seq<byte>): (body: seq<byte>)
    ensures |body| == 36 + |frames| && body[36..] == frames
  {
    WaveId + (FmtId + (LeBytes(16, 4) + (FmtBody(p) + (DataId + (LeBytes(|frames|, 4) + frames)))))
  }

  /** The RIFF chunk: its id, the size of its body, and the body. */
  function File(p: Params, frames: seq<byte>): (wav: seq<byte>)
    ensures |wav| == 44 + |frames| && wav[44..] == frames
  {
    var header, body := RiffId + LeBytes(36 + |frames|, 4), Body(p, frames);
    var wav := header + body;
    assert |header| == 8 && wav[8..] == body;
    assert wav[44..] == wav[8..][36..];
    wav
  }

  /**
    What the bytes written through wave.open(io, 'wb') hold after the
    parameters are set and `frames` is written; None where wave or
    struct.pack raises.
   */
  function Write(p: Params, frames: seq<byte>): (wav: Option<seq<byte>>)
    ensures wav.Some? <==> Writable(p, |frames|)
    ensures wav.Some? ==> |wav.value| == 44 + |frames| && wav.value[44..] == frames
  {
    if !Writable(p, |frames|) then None else Some(File(p, frames))
  }

  // ---------------------------------------------------------------------
  // Reading

  /** _read_fmt_chunk: None where it raises (short chunk, other format, zero width or channels). */
  function ReadFmt(chunk: seq<byte>): (r: Option<Params>)
    ensures r.Some? ==> r.value.channels > 0 && r.value.sampleWidth > 0
  {
    if |chunk| < 14 then None
    else if LeValue(chunk[0..2]) != PcmFormat then None
    else if |chunk| < 16 then None
    else
      var channels := LeValue(chunk[2..4]);
      var width := (LeValue(chunk[14..16]) + 7) / 8;
      if width == 0 || channels == 0 then None
      else Some(Params(channels, width, LeValue(chunk[4..8])))
  }

  /** The bytes of the whole frames in `size` bytes: readframes(getnframes()) asks for these. */
  function WholeFrameBytes(size: nat, frameSize: nat): (n: nat)
    requires frameSize > 0
    ensures n == size - size % frameSize
    ensures size % frameSize == 0 ==> n == size
  {
    assert size == (size / frameSize) * frameSize + size % frameSize;
    (size / frameSize) * frameSize
  }

  /**
    Wave_read.initfp's loop over the sub-chunks of the RIFF body, from
    offset `pos`: keep the latest fmt chunk, stop at the first data chunk,
    skip any other chunk and its pad byte.  Running out of bytes before a
    data chunk, a data chunk before any fmt chunk, or a bad fmt chunk is an
    error.  The frames are the data chunk's whole frames, cut short where
    the bytes end.
   */
  function WalkChunks(body: seq<byte>, pos: nat, fmt: Option<Params>): (r: Option<WavInfo>)
    requires fmt.Some? ==> fmt.value.channels > 0 && fmt.value.sampleWidth > 0
    ensures r.Some? ==> r.value.params.channels > 0 && r.value.params.sampleWidth > 0
    decreases |body| - pos
  {
    if pos + 8 > |body| then None
    else
      var id := body[pos..pos + 4];
      var size := LeValue(body[pos + 4..pos + 8]);
      var start := pos + 8;
      if id == DataId then
        match fmt
        case None => None
        case Some(p) =>
          var length := WholeFrameBytes(size, p.channels * p.sampleWidth);
          Some(WavInfo(p, body[start..Min(|body|, start + length)]))
      else
        var fmt' := if id == FmtId then ReadFmt(body[start..Min(|body|, start + size)]) else fmt;
        var next := start + size + size % 2;
        if id == FmtId && fmt'.None? then None
        else if next > |body| then None
        else WalkChunks(body, next, fmt')
  }

  /**
    wave.open(io, 'rb'): the RIFF chunk's body is cut to its declared size,
    must start with "WAVE", and is walked for its fmt and data chunks.
   */
  function Parse(wav: seq<byte>): (r: Option<WavInfo>)
    ensures r.Some? ==> r.value.params.channels > 0 && r.value.params.sampleWidth > 0
  {
    if |wav| < 8 || wav[..4] != RiffId then None
    else
      var body := wav[8..Min(|wav|, 8 + LeValue(wav[4..8]))];
      if |body| < 4 || body[..4] != WaveId then None
      else WalkChunks(body, 4, None)
  }

  // ---------------------------------------------------------------------
  // Reading what was written

  /** Where FmtBody places the fields _read_fmt_chunk reads. */
  lemma FmtLayout(p: Params)
    ensures var chunk := FmtBody(p);
      && chunk[0..2] == LeBytes(PcmFormat, 2) && chunk[2..4] == LeBytes(p.channels, 2)
      && chunk[4..8] == LeBytes(p.frameRate, 4) && chunk[14..16] == LeBytes(p.sampleWidth * 8, 2)
  {
    var chunk := FmtBody(p);
    var bits := LeBytes(p.sampleWidth * 8, 2);
    var r4 := LeBytes(p.channels * p.sampleWidth, 2) + bits;
    var r3 := LeBytes(p.channels * p.frameRate * p.sampleWidth, 4) + r4;
    var r2 := LeBytes(p.frameRate, 4) + r3;
    var r1 := LeBytes(p.channels, 2) + r2;
    assert chunk[0..] == LeBytes(PcmFormat, 2) + r1;
    Field(chunk, 0, LeBytes(PcmFormat, 2), r1);
    Field(chunk, 2, LeBytes(p.channels, 2), r2);
    Field(chunk, 4, LeBytes(p.frameRate, 4), r3);
    Field(chunk, 8, LeBytes(p.channels * p.frameRate * p.sampleWidth, 4), r4);
    Field(chunk, 12, LeBytes(p.channels * p.sampleWidth, 2), bits);
    assert chunk[14..16] == chunk[14..];
  }

  lemma ReadFmtOfBody(p: Params, n: nat)
    requires Writable(p, n)
    ensures ReadFmt(FmtBody(p)) == Some(p)
  {
    FmtLayout(p);
    LeValueOfLeBytes(PcmFormat, 2);
    LeValueOfLeBytes(p.channels, 2);
    LeValueOfLeBytes(p.frameRate, 4);
    LeValueOfLeBytes(p.sampleWidth * 8, 2);
    assert (p.sampleWidth * 8 + 7) / 8 == p.sampleWidth;
  }

  /** A well-formed fmt chunk at offset 4 is read and skipped. */
  lemma WalkFmtChunk(body: seq<byte>, p: Params)
    requires |body| >= 36 && body[4..8] == FmtId && LeValue(body[8..12]) == 16
    requires ReadFmt(body[12..28]) == Some(p)
    ensures WalkChunks(body, 4, None) == WalkChunks(body, 28, Some(p))
  {
    assert FmtId[0] != DataId[0];
    assert body[12..Min(|body|, 12 + 16)] == body[12..28];
  }

  /** A data chunk at offset 28 declaring exactly the whole frames that follow it yields them. */
  lemma WalkDataChunk(body: seq<byte>, p: Params, frames: seq<byte>)
    requires p.channels > 0 && p.sampleWidth > 0
    requires |body| == 36 + |frames| && body[28..32] == DataId && LeValue(body[32..36]) == |frames|
    requires body[36..] == frames && |frames| % (p.channels * p.sampleWidth) == 0
    ensures WalkChunks(body, 28, Some(p)) == Some(WavInfo(p, frames))
  {
    var n := |frames|;
    assert WholeFrameBytes(n, p.channels * p.sampleWidth) == n;
    assert body[36..Min(|body|, 36 + n)] == frames;
  }

  /** Where a RIFF chunk places its id, its size and its body. */
  lemma RiffLayout(body: seq<byte>)
    requires |body| < Pow256(4)
    ensures var wav := RiffId + LeBytes(|body|, 4) + body;
      |wav| == 8 + |body| && wav[..4] == RiffId && LeValue(wav[4..8]) == |body| && wav[8..] == body
  {
    var size := LeBytes(|body|, 4);
    var wav := RiffId + size + body;
    assert wav[4..8] == size;
    LeValueOfLeBytes(|body|, 4);
  }

  /** A RIFF chunk whose declared size is its body's length, the body starting with "WAVE", is walked from offset 4. */
  lemma ParseRiff(wav: seq<byte>, body: seq<byte>)
    requires |wav| == 8 + |body| && wav[..4] == RiffId && LeValue(wav[4..8]) == |body| && wav[8..] == body
    requires 4 <= |body| && body[..4] == WaveId
    ensures Parse(wav) == WalkChunks(body, 4, None)
  {
    assert wav[8..Min(|wav|, 8 + LeValue(wav[4..8]))] == body;
  }

  /** A field at offset k, and what follows it. */
  lemma Field(s: seq<byte>, k: nat, x: seq<byte>, rest: seq<byte>)
    requires k <= |s| && s[k..] == x + rest
    ensures s[k..k + |x|] == x && s[k + |x|..] == rest
  {
    assert s[k..k + |x|] == s[k..][..|x|];
    assert s[k + |x|..] == s[k..][|x|..];
  }

  /** Where Body places each field. */
  lemma BodyLayout(p: Params, frames: seq<byte>)
    ensures var body := Body(p, frames);
      && body[..4] == WaveId && body[4..8] == FmtId && body[8..12] == LeBytes(16, 4)
      && body[12..28] == FmtBody(p) && body[28..32] == DataId
      && body[32..36] == LeBytes(|frames|, 4) && body[36..] == frames
  {
    var body := Body(p, frames);
    var r5 := LeBytes(|frames|, 4) + frames;
    var r4 := DataId + r5;
    var r3 := FmtBody(p) + r4;
    var r2 := LeBytes(16, 4) + r3;
    var r1 := FmtId + r2;
    assert body[0..] == WaveId + r1;
    Field(body, 0, WaveId, r1);
    Field(body, 4, FmtId, r2);
    Field(body, 8, LeBytes(16, 4), r3);
    Field(body, 12, FmtBody(p), r4);
    Field(body, 28, DataId, r5);
    Field(body, 32, LeBytes(|frames|, 4), frames);
  }

  /** A body laid out as Body lays it out is walked to its parameters and frames. */
  lemma WalkLayout(body: seq<byte>, p: Params, frames: seq<byte>)
    requires Writable(p, |frames|) && |frames| % (p.channels * p.sampleWidth) == 0
    requires |body| == 36 + |frames|
    requires body[4..8] == FmtId && body[8..12] == LeBytes(16, 4) && body[12..28] == FmtBody(p)
    requires body[28..32] == DataId && body[32..36] == LeBytes(|frames|, 4) && body[36..] == frames
    ensures WalkChunks(body, 4, None) == Some(WavInfo(p, frames))
  {
    LeValueOfLeBytes(16, 4);
    ReadFmtOfBody(p, |frames|);
    WalkFmtChunk(body, p);
    LeValueOfLeBytes(|frames|, 4);
    WalkDataChunk(body, p, frames);
  }

  /**
    A file written with whole frames reads back with the same parameters
    and the same frames.
   */
  lemma ParseWrite(p: Params, frames: seq<byte>)
    requires Writable(p, |frames|)
    requires |frames| % (p.channels * p.sampleWidth) == 0
    ensures Parse(Write(p, frames).value) == Some(WavInfo(p, frames))
  {
    var body := Body(p, frames);
    BodyLayout(p, frames);
    RiffLayout(body);
    ParseRiff(File(p, frames), body);
    WalkLayout(body, p, frames);
  }
}
