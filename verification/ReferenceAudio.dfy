/** From queued speaker bytes to the 32-bit reference: the in-place downmix and the widening of
    get_reference_samples (hal/audio/audio_aec.c), and the sizes of the buffers they work in. */
module ReferenceAudio {
  import opened Arith
  import opened Samples

  /** C's division of an int32 by a positive int32: toward zero. */
  function TruncDiv(a: int, b: nat): (r: int)
    requires b > 0
    ensures a >= 0 ==> r * b <= a < (r + 1) * b
    ensures a < 0 ==> (r - 1) * b < a <= r * b
  {
    DivBounds(a, b);
    DivBounds(0 - a, b);
    if a >= 0 then a / b else 0 - (0 - a) / b
  }

  function Sum(s: seq<int16>): int {
    if s == [] then 0 else Sum(s[..|s| - 1]) + s[|s| - 1]
  }

  lemma {:induction false} SumBounds(s: seq<int16>)
    ensures -0x8000 * |s| <= Sum(s) <= 0x7fff * |s|
  {
    if s != [] { SumBounds(s[..|s| - 1]); }
  }

  /** Each sample counts once in the sum. */
  lemma {:induction false} SumOfChange(s: seq<int16>, k: nat, v: int16)
    requires k < |s|
    ensures Sum(s[k := v]) == Sum(s) - s[k] + v
  {
    var last := |s| - 1;
    if k < last {
      assert s[k := v][..last] == s[..last][k := v];
      SumOfChange(s[..last], k, v);
    } else {
      assert s[k := v][..last] == s[..last];
    }
  }

  lemma {:induction false} SumOfSilence(n: nat)
    ensures Sum(seq(n, _ => 0 as int16)) == 0
  {
    if n > 0 {
      assert seq(n, _ => 0 as int16)[..n - 1] == seq(n - 1, _ => 0 as int16);
      SumOfSilence(n - 1);
    }
  }

  /** The average of a frame, which is what a mono reference means; no clamp. */
  function FrameAverage(s: seq<int16>, frame: nat, channels: nat): int
    requires channels > 0 && (frame + 1) * channels <= |s|
  {
    TruncDiv(Sum(Frame(s, frame, channels)), channels)
  }

  function Frame(s: seq<int16>, frame: nat, channels: nat): (r: seq<int16>)
    requires (frame + 1) * channels <= |s|
    ensures |r| == channels
  {
    assert (frame + 1) * channels == frame * channels + channels;
    s[frame * channels..(frame + 1) * channels]
  }

  lemma QuotientWithin(a: nat, n: nat, hi: nat)
    requires n > 0 && a <= hi * n
    ensures 0 <= a / n <= hi
  {
    DivAtLeast(a, 0, n);
    DivLeq(a, hi * n, n);
    DivExact(hi, n);
  }

  lemma QuotientBounds(a: int, n: nat, lo: int, hi: int)
    requires n > 0 && lo <= 0 <= hi && lo * n <= a <= hi * n
    ensures lo <= TruncDiv(a, n) <= hi
  {
    if a >= 0 {
      QuotientWithin(a, n, hi);
    } else {
      assert (0 - lo) * n == 0 - lo * n;
      QuotientWithin(0 - a, n, 0 - lo);
    }
  }

  /** The clamp in the downmix never changes a value, and the accumulator stays within an int32
      for up to 65535 channels. */
  lemma AverageNeedsNoClamp(s: seq<int16>, frame: nat, channels: nat)
    requires channels > 0 && (frame + 1) * channels <= |s|
    ensures Clamp16(FrameAverage(s, frame, channels)) == FrameAverage(s, frame, channels)
    ensures channels <= 0xffff ==> -0x8000_0000 <= Sum(Frame(s, frame, channels)) < 0x8000_0000
  {
    SumBounds(Frame(s, frame, channels));
    QuotientBounds(Sum(Frame(s, frame, channels)), channels, -0x8000, 0x7fff);
  }

  lemma FrameIndex(i: nat, frames: nat, channels: nat)
    requires i < frames && channels > 0
    ensures (i + 1) * channels == i * channels + channels <= frames * channels
    ensures i <= i * channels
  {
    MulLeq(i + 1, frames, channels);
    MulLeq(1, channels, i);
  }

  /** The mono reference of `frames` frames: one average per frame. */
  function Downmix(s: seq<int16>, frames: nat, channels: nat): (r: seq<int>)
    requires channels > 0 && frames * channels <= |s|
    ensures |r| == frames
  {
    if frames == 0 then [] else
      FrameIndex(frames - 1, frames, channels);
      Downmix(s, frames - 1, channels) + [FrameAverage(s, frames - 1, channels)]
  }

  /** Sample i of the downmix is the sum of frame i over the channels, rounded toward zero. */
  lemma {:induction false} DownmixIsAverage(s: seq<int16>, frames: nat, channels: nat, i: nat, sum: int)
    requires channels > 0 && frames * channels <= |s| && i < frames
    requires 0 <= i * channels && i * channels + channels <= |s| && sum == Sum(s[i * channels..i * channels + channels])
    ensures var r := Downmix(s, frames, channels)[i];
      if sum >= 0 then r * channels <= sum < (r + 1) * channels else (r - 1) * channels < sum <= r * channels
  {
    FrameIndex(frames - 1, frames, channels);
    if i < frames - 1 {
      DownmixIsAverage(s, frames - 1, channels, i, sum);
    } else {
      assert (i + 1) * channels == i * channels + channels;
    }
  }

  /** The inner loop of the downmix: one frame, summed in channel order. */
  method AccumulateFrame(buf: array<int16>, src: nat, channels: nat) returns (acc: int)
    requires src + channels <= buf.Length
    ensures acc == Sum(buf[src..src + channels])
  {
    acc := 0;
    for ch := 0 to channels
      invariant acc == Sum(buf[src..src + ch])
    {
      assert buf[src..src + ch + 1][..ch] == buf[src..src + ch];
      acc := acc + buf[src + ch];
    }
  }

  /** One frame of the downmix: slot `frame` is overwritten with the average of the original frame, which
      lies at src, not before it. */
  method MixFrame(buf: array<int16>, ghost was: seq<int16>, frame: nat, src: nat, channels: nat)
    requires channels > 0 && src == frame * channels && frame <= src && src + channels <= buf.Length == |was|
    requires (frame + 1) * channels <= |was| && buf[frame..] == was[frame..]
    modifies buf
    ensures buf[frame] == FrameAverage(was, frame, channels)
    ensures buf[..frame] == old(buf[..frame]) && buf[frame + 1..] == was[frame + 1..]
  {
    var acc := AccumulateFrame(buf, src, channels);
    TailWindow(buf[..], was, frame, src, channels);
    AverageNeedsNoClamp(was, frame, channels);
    ghost var now := buf[..];
    buf[frame] := Clamp16(TruncDiv(acc, channels));
    assert buf[frame + 1..] == now[frame..][1..];
  }

  /** The downmix reads and writes one array through two pointers; the writer never passes the
      reader, so every average is of original samples, and the rest of the array is as it was. */
  method DownmixInPlace(buf: array<int16>, frames: nat, channels: nat)
    requires channels > 0 && frames * channels <= buf.Length
    modifies buf
    ensures frames <= buf.Length && buf[..frames] == Downmix(old(buf[..]), frames, channels)
    ensures buf[frames..] == old(buf[frames..])
  {
    ghost var was := buf[..];
    if frames > 0 { FrameIndex(frames - 1, frames, channels); }
    var src := 0;
    for frame := 0 to frames
      invariant src == frame * channels <= frames * channels
      invariant buf[..frame] == Downmix(was, frame, channels)
      invariant buf[frame..] == was[frame..]
    {
      FrameIndex(frame, frames, channels);
      MixFrame(buf, was, frame, src, channels);
      assert buf[..frame + 1] == buf[..frame] + [buf[frame]];
      src := src + channels;
    }
  }

  /** Sequences that agree from index `from` on agree on every window past it. */
  lemma TailWindow(a: seq<int16>, b: seq<int16>, from: nat, at: nat, n: nat)
    requires |a| == |b| && from <= at && at + n <= |a| && a[from..] == b[from..]
    ensures a[at..at + n] == b[at..at + n]
  {
    forall i | at <= i < at + n
      ensures a[i] == b[i]
    {
      assert a[i] == a[from..][i - from] && b[i] == b[from..][i - from];
    }
  }

  /** get_reference_audio_in_place: only a mono reference of multichannel audio is mixed down. */
  method GetReferenceAudioInPlace(buf: array<int16>, frames: nat, referenceChannels: nat, spkChannels: nat)
    requires spkChannels > 0 && frames * spkChannels <= buf.Length
    modifies buf
    ensures referenceChannels == 1 && spkChannels != 1 ==>
      && frames <= buf.Length
      && buf[..frames] == Downmix(old(buf[..]), frames, spkChannels)
      && buf[frames..] == old(buf[frames..])
    ensures referenceChannels != 1 || spkChannels == 1 ==> buf[..] == old(buf[..])
  {
    if referenceChannels == spkChannels {
      return;
    } else if referenceChannels != 1 {
      return;
    }
    DownmixInPlace(buf, frames, spkChannels);
  }

  /** One frame of the conversion to 32 bits. */
  method WidenFrame(src: array<int16>, dst: array<int32>, k: nat, channels: nat)
    requires k + channels <= src.Length && k + channels <= dst.Length
    modifies dst
    ensures forall i :: k <= i < k + channels ==> dst[i] == 0x1_0000 * (src[i] as int)
    ensures forall i :: 0 <= i < dst.Length && (i < k || k + channels <= i) ==> dst[i] == old(dst[i])
  {
    for ch := 0 to channels
      invariant forall i :: k <= i < k + ch ==> dst[i] == 0x1_0000 * (src[i] as int)
      invariant forall i :: 0 <= i < dst.Length && (i < k || k + ch <= i) ==> dst[i] == old(dst[i])
    {
      dst[k + ch] := 0x1_0000 * (src[k + ch] as int);
    }
  }

  /** The conversion to 32 bits at the end of get_reference_samples. */
  method WidenTo32(src: array<int16>, dst: array<int32>, frames: nat, channels: nat)
    requires frames * channels <= src.Length && frames * channels <= dst.Length
    modifies dst
    ensures forall i :: 0 <= i < frames * channels ==> dst[i] == 0x1_0000 * (src[i] as int)
    ensures forall i :: frames * channels <= i < dst.Length ==> dst[i] == old(dst[i])
  {
    ghost var n := frames * channels;
    var k := 0;
    for frame := 0 to frames
      invariant k == frame * channels <= n
      invariant forall i :: 0 <= i < k ==> dst[i] == 0x1_0000 * (src[i] as int)
      invariant forall i :: k <= i < dst.Length ==> dst[i] == old(dst[i])
    {
      MulLeq(frame + 1, frames, channels);
      assert (frame + 1) * channels == k + channels;
      WidenFrame(src, dst, k, channels);
      k := k + channels;
    }
  }

  // ---------------------------------------------------------------- buffer sizes

  /** The configuration the sizes depend on: the period in frames, the channel counts of the
      microphone, the speaker and the reference, and the two sampling rates.  The microphone is
      32-bit and the speaker 16-bit, as adev_open_input_stream and adev_open_output_stream set them. */
  datatype Config = Config(period: nat, micChannels: nat, spkChannels: nat, refChannels: nat,
                           micRate: nat, spkRate: nat) {
    predicate Valid() {
      micChannels > 0 && spkChannels > 0 && refChannels > 0 && micRate > 0
    }

    function MicFrameBytes(): nat { 4 * micChannels }

    function SpkFrameBytes(): nat { 2 * spkChannels }

    function MicBufBytes(): nat { period * MicFrameBytes() }

    function SpkBufBytes(): nat
      requires Valid()
    {
      period * spkChannels * MicFrameBytes() / micChannels
    }

    function PlaybackBytes(): nat
      requires Valid()
    {
      SpkBufBytes() * spkRate / micRate
    }

    /** The frame count as get_reference_samples scales it. */
    function Frames(bytes: nat): nat
      requires Valid()
    {
      var scaled := bytes * refChannels;
      DivAtLeast(scaled, 0, micChannels);
      DivAtLeast(scaled / micChannels, 0, MicFrameBytes());
      scaled / micChannels / MicFrameBytes()
    }

    function ResamplerInFrames(bytes: nat): nat
      requires Valid()
    {
      Frames(bytes) * (spkRate / micRate)
    }

    function RequiredBytes(bytes: nat): nat
      requires Valid()
    {
      ResamplerInFrames(bytes) * SpkFrameBytes()
    }

    /** Every access of get_reference_samples for a read of `bytes` stays inside its buffer: the FIFO
        read and the downmix in the playback buffer, what the resampler reads there, if there is one,
        and puts out, and the widening, whose source is the playback buffer when the rates are equal and
        the resampler's output otherwise. */
    predicate Fits(bytes: nat)
      requires Valid()
    {
      InputFits(ResamplerInFrames(bytes)) && OutputFits(Frames(bytes))
    }

    /** Of n frames at the speaker's rate: what is read, mixed down and fed to the resampler. */
    predicate InputFits(n: nat)
      requires Valid()
    {
      && n * SpkFrameBytes() <= PlaybackBytes()
      && 2 * (n * spkChannels) <= PlaybackBytes()
      && (spkRate != micRate ==> 2 * (n * refChannels) <= PlaybackBytes())
    }

    /** Of `frames` frames at the microphone's rate: what is widened, and from where. */
    predicate OutputFits(frames: nat)
      requires Valid()
    {
      && 2 * (frames * refChannels) <= (if spkRate == micRate then PlaybackBytes() else SpkBufBytes())
      && 4 * (frames * refChannels) <= SpkBufBytes()
    }
  }

  lemma SpkBufSize(c: Config)
    requires c.Valid()
    ensures c.SpkBufBytes() == 4 * (c.period * c.spkChannels)
  {
    assert c.period * c.spkChannels * c.MicFrameBytes() == 4 * (c.period * c.spkChannels) * c.micChannels;
    DivExact(4 * (c.period * c.spkChannels), c.micChannels);
  }

  /** Dividing twice is dividing by the product, rounded down once. */
  lemma TwiceDivided(a: int, m: int, n: int, x: int, f: int)
    requires m > 0 && n > 0 && x == a / m && f == x / n
    ensures f * n * m <= a < (f + 1) * n * m
  {
    DivBounds(a, m);
    DivBounds(x, n);
    MulLeq(f * n, x, m);
    MulLeq(x + 1, (f + 1) * n, m);
  }

  /** The sizes as numbers: buffers of a period of 4-byte samples of the microphone and of as many of the
      speaker, the latter scaled by the rates and rounded down for playback; `f` frames, the most that the
      read scales to; and 2 bytes for each sample of k times as many frames, k the whole part of the ratio. */
  lemma SizesExactly(c: Config, bytes: nat, f: nat, playback: nat, k: nat)
    requires c.Valid() && f == c.Frames(bytes) && playback == c.PlaybackBytes()
    requires k * c.micRate <= c.spkRate < (k + 1) * c.micRate
    ensures c.MicBufBytes() == 4 * (c.period * c.micChannels) && c.SpkBufBytes() == 4 * (c.period * c.spkChannels)
    ensures playback * c.micRate <= 4 * (c.period * c.spkChannels) * c.spkRate < (playback + 1) * c.micRate
    ensures f * (4 * c.micChannels) * c.micChannels <= bytes * c.refChannels
            < (f + 1) * (4 * c.micChannels) * c.micChannels
    ensures c.RequiredBytes(bytes) == f * k * (2 * c.spkChannels)
  {
    SpkBufSize(c);
    Associate(4, c.period, c.micChannels);
    DivBounds(c.SpkBufBytes() * c.spkRate, c.micRate);
    var scaled := bytes * c.refChannels / c.micChannels;
    DivAtLeast(bytes * c.refChannels, 0, c.micChannels);
    TwiceDivided(bytes * c.refChannels, c.micChannels, 4 * c.micChannels, scaled, f);
    DivUnique(c.spkRate, k, c.micRate);
  }

  /** Frames * mic channels never exceeds period * reference channels. */
  lemma FramesBound(c: Config, bytes: nat)
    requires c.Valid() && bytes <= c.MicBufBytes()
    ensures c.Frames(bytes) * c.micChannels <= c.period * c.refChannels
  {
    var x := bytes * c.refChannels / c.micChannels;
    var f := c.Frames(bytes);
    MulLeq(bytes, c.MicBufBytes(), c.refChannels);
    assert f * (4 * c.micChannels) <= x;
    assert x * c.micChannels <= bytes * c.refChannels;
    assert c.MicBufBytes() * c.refChannels == (4 * (c.period * c.refChannels)) * c.micChannels by {
      assert c.period * (4 * c.micChannels) * c.refChannels == 4 * (c.period * c.refChannels) * c.micChannels;
    }
    MulLeqCancel(x, 4 * (c.period * c.refChannels), c.micChannels);
    assert f * (4 * c.micChannels) == 4 * (f * c.micChannels);
  }

  lemma PlaybackLower(c: Config)
    requires c.Valid()
    ensures (c.spkRate / c.micRate) * c.SpkBufBytes() <= c.PlaybackBytes()
  {
    var q := c.spkRate / c.micRate;
    assert q * c.micRate <= c.spkRate;
    MulLeq(q * c.micRate, c.spkRate, c.SpkBufBytes());
    assert q * c.micRate * c.SpkBufBytes() == (q * c.SpkBufBytes()) * c.micRate;
    assert c.spkRate * c.SpkBufBytes() == c.SpkBufBytes() * c.spkRate;
    DivExact(q * c.SpkBufBytes(), c.micRate);
    DivLeq((q * c.SpkBufBytes()) * c.micRate, c.SpkBufBytes() * c.spkRate, c.micRate);
  }

  lemma WideningFits(c: Config, frames: nat)
    requires c.Valid() && frames * c.micChannels <= c.period * c.refChannels
    requires c.refChannels * c.refChannels <= c.micChannels * c.spkChannels
    ensures frames * c.refChannels <= c.period * c.spkChannels
  {
    var M, S, R, P := c.micChannels, c.spkChannels, c.refChannels, c.period;
    MulLeq(frames * M, P * R, R);
    MulLeq(R * R, M * S, P);
    assert frames * M * R == (frames * R) * M;
    assert P * R * R == (R * R) * P;
    assert (M * S) * P == (P * S) * M;
    MulLeqCancel(frames * R, P * S, M);
  }

  lemma ReadFits(c: Config, frames: nat)
    requires c.Valid() && frames * c.micChannels <= c.period * c.refChannels
    requires c.refChannels <= 2 * c.micChannels
    ensures frames <= 2 * c.period
  {
    MulLeq(c.refChannels, 2 * c.micChannels, c.period);
    assert c.refChannels * c.period == c.period * c.refChannels;
    assert (2 * c.micChannels) * c.period == (2 * c.period) * c.micChannels;
    MulLeqCancel(frames, 2 * c.period, c.micChannels);
  }

  /** The audio read fits the playback buffer. */
  lemma PlaybackFits(c: Config, f: nat, n: nat)
    requires c.Valid() && f <= 2 * c.period && n == f * (c.spkRate / c.micRate)
    ensures n * c.SpkFrameBytes() <= c.PlaybackBytes()
  {
    var q := c.spkRate / c.micRate;
    SpkBufSize(c); PlaybackLower(c);
    var w := q * (2 * c.spkChannels);
    MulLeq(f, 2 * c.period, w);
    assert f * q * (2 * c.spkChannels) == f * w;
    assert (2 * c.period) * w == q * (4 * (c.period * c.spkChannels));
  }

  /** What the resampler reads is in the playback buffer. */
  lemma ResamplerInputFits(c: Config, f: nat, n: nat)
    requires c.Valid() && f * c.refChannels <= c.period * c.spkChannels && n == f * (c.spkRate / c.micRate)
    ensures 2 * (n * c.refChannels) <= c.PlaybackBytes()
  {
    var q := c.spkRate / c.micRate;
    SpkBufSize(c); PlaybackLower(c);
    MulLeq(f * c.refChannels, c.period * c.spkChannels, q);
    MovesOut(f, q, c.refChannels);
    MovesOut(1, q, c.period * c.spkChannels);
  }

  lemma MovesOut(f: nat, q: nat, r: nat)
    ensures f * q * r == f * r * q
  {
  }

  lemma EqualRates(c: Config)
    requires c.Valid() && c.spkRate == c.micRate
    ensures c.PlaybackBytes() == c.SpkBufBytes()
  {
    DivExact(c.SpkBufBytes(), c.micRate);
  }

  lemma WideningInBuffers(c: Config, f: nat)
    requires c.Valid() && f * c.refChannels <= c.period * c.spkChannels
    ensures 4 * (f * c.refChannels) <= c.SpkBufBytes()
    ensures 2 * (f * c.refChannels) <= (if c.spkRate == c.micRate then c.PlaybackBytes() else c.SpkBufBytes())
  {
    SpkBufSize(c);
    if c.spkRate == c.micRate { EqualRates(c); }
  }

  lemma InputsFit(c: Config, f: nat, n: nat)
    requires c.Valid() && f <= 2 * c.period && f * c.refChannels <= c.period * c.spkChannels
    requires n == f * (c.spkRate / c.micRate)
    ensures c.InputFits(n)
  {
    PlaybackFits(c, f, n);
    ResamplerInputFits(c, f, n);
    TwiceOut(n, c.spkChannels);
  }

  lemma BuffersSuffice(c: Config, bytes: nat)
    requires c.Valid() && bytes <= c.MicBufBytes()
    requires c.refChannels * c.refChannels <= c.micChannels * c.spkChannels && c.refChannels <= 2 * c.micChannels
    ensures c.Fits(bytes)
  {
    var f := c.Frames(bytes);
    FramesBound(c, bytes);
    ReadFits(c, f);
    WideningFits(c, f);
    InputsFit(c, f, c.ResamplerInFrames(bytes));
    WideningInBuffers(c, f);
  }

  /** A period of as many frames as the microphone has channels, at equal rates, needs the bounds. */
  function Tight(m: nat, s: nat, r: nat): Config {
    Config(m, m, s, r, 1, 1)
  }

  lemma BoundsNeeded(m: nat, s: nat, r: nat)
    requires m > 0 && s > 0 && r > 0
    requires Tight(m, s, r).Fits(Tight(m, s, r).MicBufBytes())
    ensures r * r <= m * s && r <= 2 * m
  {
    var c := Tight(m, s, r);
    var bytes := c.MicBufBytes();
    SpkBufSize(c);
    assert bytes * r == (4 * m * r) * m by { assert m * (4 * m) * r == (4 * m * r) * m; }
    DivExact(4 * m * r, m);
    assert 4 * m * r == r * (4 * m);
    DivExact(r, 4 * m);
    assert c.Frames(bytes) == r;
    assert c.RequiredBytes(bytes) == r * (2 * s);
    assert r * (2 * s) == r * (2 * s) && 4 * (m * s) == (2 * m) * (2 * s);
    MulLeqCancel(r, 2 * m, 2 * s);
  }

  /** The reference buffers suffice for every period, both rates and every read of at most a period
      if and only if the channel counts are within these bounds. */
  lemma BuffersSufficeExactly(m: nat, s: nat, r: nat)
    requires m > 0 && s > 0 && r > 0
    ensures (r * r <= m * s && r <= 2 * m) <==>
      forall c: Config, bytes: nat :: c.Valid() && c.micChannels == m && c.spkChannels == s && c.refChannels == r
        && bytes <= c.MicBufBytes()
        ==> c.Fits(bytes)
  {
    if r * r <= m * s && r <= 2 * m {
      forall c: Config, bytes: nat | c.Valid() && c.micChannels == m && c.spkChannels == s && c.refChannels == r
        && bytes <= c.MicBufBytes()
        ensures c.Fits(bytes)
      {
        BuffersSuffice(c, bytes);
      }
    } else if Tight(m, s, r).Fits(Tight(m, s, r).MicBufBytes()) {
      BoundsNeeded(m, s, r);
    }
  }
}
