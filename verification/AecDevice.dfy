/** struct aec_t of hal/audio/audio_aec.c and the functions that update it in place, each proved
    against the functions of AecQueues, ReferenceAudio and AecProcess. */
module AecDevice {
  import opened Arith
  import opened Errno
  import opened Samples
  import opened AecQueues
  import opened ReferenceAudio
  import opened AecProcess
  import opened DeviceRuns

  /** A 16-bit little-endian sample. */
  function Le16(lo: Byte, hi: Byte): (r: int16)
    ensures (r - lo - 0x100 * hi) % 0x1_0000 == 0
  {
    var u := lo + 0x100 * hi;
    if u >= 0x8000 then u - 0x1_0000 else u
  }

  function SamplesOf(audio: seq<AudioByte>): (r: seq<int16>)
    requires |audio| % 2 == 0
    ensures |r| == |audio| / 2
  {
    seq(|audio| / 2, i requires 0 <= i < |audio| / 2 => Le16(audio[2 * i].value, audio[2 * i + 1].value))
  }

  /** Two bytes for each channel, at the speaker's rate. */
  function SpkBytesPerSecond(c: Config): (r: nat)
    ensures r == 2 * (c.spkChannels * c.spkRate)
  {
    Associate(2, c.spkChannels, c.spkRate);
    c.SpkFrameBytes() * c.spkRate
  }

  lemma RateIsPositive(c: Config)
    requires c.Valid() && c.spkRate > 0
    ensures SpkBytesPerSecond(c) > 0
  {
    MulLess(0, c.SpkFrameBytes(), c.spkRate);
  }

  /** The 16-bit reference at equal rates: the downmix, or the audio as it is. */
  function Mixed(samples: seq<int16>, frames: nat, spkChannels: nat, refChannels: nat): seq<int>
    requires spkChannels > 0 && frames * spkChannels <= |samples|
  {
    if refChannels == 1 && spkChannels != 1 then Downmix(samples, frames, spkChannels) else samples
  }

  /** The first n samples of the 32-bit reference are the 16-bit ones, as many as there are, in the
      upper halves. */
  predicate Widened(dst: seq<int32>, src: seq<int>, n: nat) {
    n <= |dst| && forall i :: 0 <= i < n && i < |src| ==> dst[i] == 0x1_0000 * src[i]
  }

  /** The downmix looks only at the frames it mixes. */
  lemma {:induction false} DownmixPrefix(s: seq<int16>, used: seq<int16>, frames: nat, channels: nat)
    requires channels > 0 && frames * channels <= |used| && used <= s
    ensures Downmix(s, frames, channels) == Downmix(used, frames, channels)
  {
    if frames > 0 {
      FrameIndex(frames - 1, frames, channels);
      DownmixPrefix(s, used, frames - 1, channels);
      assert Frame(s, frames - 1, channels) == Frame(used, frames - 1, channels);
    }
  }

  /** Sizes in bytes, as counts of 16-bit and 32-bit elements. */
  lemma InElements(playback: nat, spk: nat, input: nat, output: nat, sameRate: bool)
    requires 2 * input <= playback && 4 * output <= spk && 2 * output <= (if sameRate then playback else spk)
    ensures input <= playback / 2 && output <= spk / 4
    ensures output <= (if sameRate then playback / 2 else spk / 2)
  {
  }

  class Aec {
    var spkFifo: seq<AudioByte>
    var tsFifo: seq<AecInfo>
    var fifos: Fifos
    var lastSpkInfo: AecInfo
    var readWriteDiffBytes: int
    var spkRunning: bool
    var prevSpkRunning: bool
    var micInitialized: bool
    var spkInitialized: bool
    const config: Config
    const micBuf: array<Byte>
    const spkBuf: array<int32>
    const spkBufPlaybackFormat: array<int16>
    const spkBufResamplerOut: array<int16>

    /** The work buffers of a reference read. */
    ghost function WorkBuffers(): set<object> {
      {spkBuf as object, spkBufPlaybackFormat as object, spkBufResamplerOut as object}
    }

    function Q(): Queues
      reads this
    {
      Queues(spkFifo, tsFifo, lastSpkInfo, readWriteDiffBytes)
    }

    function State(): Device
      reads this
    {
      Device(Q(), fifos, spkRunning, prevSpkRunning, micInitialized, spkInitialized)
    }

    /** The buffers have the sizes init_aec_mic_config gives them, and the channel counts are those
        for which these suffice. */
    ghost predicate Valid()
      reads this
    {
      && config.Valid() && config.spkRate > 0
      && config.refChannels * config.refChannels <= config.micChannels * config.spkChannels
      && config.refChannels <= 2 * config.micChannels
      && micBuf.Length == config.MicBufBytes()
      && spkBuf.Length == config.SpkBufBytes() / 4
      && spkBufPlaybackFormat.Length == config.PlaybackBytes() / 2
      && spkBufResamplerOut.Length == config.SpkBufBytes() / 2
      && spkBufPlaybackFormat != spkBufResamplerOut
      && micBuf !in WorkBuffers()
      && Consistent(State())
    }

    /** init_aec, init_aec_reference_config and init_aec_mic_config, all successful. */
    constructor (config: Config)
      requires config.Valid() && config.spkRate > 0
      requires config.refChannels * config.refChannels <= config.micChannels * config.spkChannels
      requires config.refChannels <= 2 * config.micChannels
      ensures Valid() && State() == Device(INITIAL, Live, false, false, true, true)
      ensures fresh(micBuf) && fresh(spkBuf) && fresh(spkBufPlaybackFormat) && fresh(spkBufResamplerOut)
    {
      this.config := config;
      spkFifo, tsFifo, lastSpkInfo, readWriteDiffBytes := [], [], EMPTY_INFO, 0;
      fifos, spkRunning, prevSpkRunning, micInitialized, spkInitialized := Live, false, false, true, true;
      micBuf := new Byte[config.MicBufBytes()](_ => 0);
      spkBuf := new int32[config.SpkBufBytes() / 4](_ => 0);
      spkBufPlaybackFormat := new int16[config.PlaybackBytes() / 2];
      spkBufResamplerOut := new int16[config.SpkBufBytes() / 2];
    }

    method SetSpkRunning(state: bool)
      modifies this`spkRunning
      ensures State() == old(State()).(spkRunning := state)
    {
      spkRunning := state;
    }

    /** The FIFOs are there, or were never made and are NULL. */
    predicate LiveOrAbsent()
      reads this
    {
      fifos == Live || (fifos == Absent && spkFifo == [] && tsFifo == [])
    }

    /** flush_aec_fifos, which checks that the FIFOs were made, and relies on their not being released. */
    method FlushAecFifos()
      requires LiveOrAbsent()
      modifies this`spkFifo, this`tsFifo, this`readWriteDiffBytes
      ensures State() == old(State()).(q := Flush(old(Q())))
    {
      if fifos != Absent {
        spkFifo := [];
        tsFifo := [];
      }
      readWriteDiffBytes := 0;
    }

    /** destroy_aec_reference_config */
    method DestroyAecReferenceConfig()
      requires Consistent(State())
      modifies this
      ensures State() == CloseOutput(old(State()))
    {
      if !spkInitialized {
        return;
      }
      SetSpkRunning(false);
      spkFifo, tsFifo, fifos := [], [], Released;
      lastSpkInfo := EMPTY_INFO;
      spkInitialized := false;
    }

    /** init_aec_reference_config, with the same settings as before. */
    method InitAecReferenceConfig()
      requires Consistent(State())
      modifies this
      ensures State() == OpenOutput(old(State()))
    {
      if spkInitialized {
        DestroyAecReferenceConfig();
      }
      spkFifo, tsFifo, fifos := [], [], Live;
      spkInitialized := true;
    }

    /** The end of init_aec_mic_config, with the same settings as before.  It relies on what its caller
        does not see to: that the FIFOs have not been released. */
    method InitAecMicConfig()
      requires LiveOrAbsent()
      modifies this
      ensures State() == old(State()).(q := Flush(old(Q())), micInitialized := true)
    {
      FlushAecFifos();
      micInitialized := true;
    }

    method DestroyAecMicConfig()
      modifies this`micInitialized
      ensures State() == old(State()).(micInitialized := false)
    {
      micInitialized := false;
    }

    /** write_to_reference_fifo; the audio FIFO takes `accepted` of the bytes. */
    method WriteToReferenceFifo(buffer: seq<AudioByte>, stamp: Timespec, accepted: nat) returns (ret: int)
      requires fifos == Live && accepted <= |buffer|
      modifies this`spkFifo, this`tsFifo
      ensures State() == old(State()).(q := WritePacket(old(Q()), buffer, accepted, stamp))
      ensures ret == if accepted == |buffer| then 0 else 0 - ENOMEM
    {
      ret := 0;
      spkFifo := spkFifo + buffer[..accepted];
      if accepted != |buffer| {
        ret := 0 - ENOMEM;
      }
      tsFifo := tsFifo + [AecInfo(stamp, accepted)];
    }

    /** The loop of get_spk_timestamp that skips the records of audio already read. */
    method SkipRecords()
      requires fifos == Live
      modifies this`tsFifo, this`lastSpkInfo, this`readWriteDiffBytes
      ensures (tsFifo, lastSpkInfo, readWriteDiffBytes)
           == FastForward(old(tsFifo), old(lastSpkInfo), old(readWriteDiffBytes))
    {
      var spkInfo := lastSpkInfo;
      ghost var goal := FastForward(tsFifo, spkInfo, readWriteDiffBytes);
      while readWriteDiffBytes > 0
        invariant FastForward(tsFifo, spkInfo, readWriteDiffBytes) == goal
        decreases |tsFifo|
      {
        if tsFifo == [] {
          break;
        }
        spkInfo := tsFifo[0];
        tsFifo := tsFifo[1..];
        readWriteDiffBytes := readWriteDiffBytes - spkInfo.bytes;
      }
      lastSpkInfo := spkInfo;
    }

    /** get_spk_timestamp */
    method GetSpkTimestamp(readBytes: nat) returns (spkTime: int)
      requires fifos == Live
      requires config.spkChannels > 0 && config.spkRate > 0 && SpkBytesPerSecond(config) > 0
      modifies this`tsFifo, this`lastSpkInfo, this`readWriteDiffBytes
      ensures (spkTime, Q()) == SpkTimestamp(old(Q()), readBytes, SpkBytesPerSecond(config))
      ensures State() == old(State()).(q := Q())
    {
      spkTime := 0;
      var spkTimeOffset: int := 0;
      if readWriteDiffBytes < 0 {
        spkTimeOffset := (lastSpkInfo.bytes + readWriteDiffBytes) * 1_000_000 / SpkBytesPerSecond(config);
      } else {
        if tsFifo == [] {
          return;
        }
        lastSpkInfo := tsFifo[0];
        tsFifo := tsFifo[1..];
        readWriteDiffBytes := readWriteDiffBytes - lastSpkInfo.bytes;
      }
      spkTime := TimespecToUsec(lastSpkInfo.timestamp) + spkTimeOffset;
      readWriteDiffBytes := readWriteDiffBytes + readBytes;
      SkipRecords();
    }

    /** The packets of one millisecond, written by the playback thread. */
    method TakeArrivals(writes: seq<Write>)
      requires fifos == Live && ValidWrites(writes)
      modifies this`spkFifo, this`tsFifo
      ensures State() == old(State()).(q := Deliver(old(Q()), writes))
    {
      ghost var goal := Deliver(Q(), writes);
      for i := 0 to |writes|
        invariant Deliver(Q(), writes[i..]) == goal
        invariant State() == old(State()).(q := Q())
      {
        assert writes[i..][0] == writes[i] && writes[i..][1..] == writes[i + 1..];
        var _ := WriteToReferenceFifo(writes[i].audio, writes[i].stamp, writes[i].accepted);
      }
    }

    /** The loop of get_reference_samples that waits for enough audio. */
    method WaitForAudio(reqBytes: nat, arrivals: seq<seq<Write>>) returns (ret: int)
      requires fifos == Live && ValidArrivals(arrivals)
      modifies this`spkFifo, this`tsFifo
      ensures var (enough, q) := Wait(old(Q()), reqBytes, arrivals, MAX_READ_WAIT_TIME_MSEC);
        State() == old(State()).(q := q) && ret == if enough then 0 else 0 - ETIMEDOUT
    {
      var waitCount: nat := MAX_READ_WAIT_TIME_MSEC;
      var rest := arrivals;
      ghost var goal := Wait(Q(), reqBytes, rest, waitCount);
      while |spkFifo| < reqBytes
        invariant ValidArrivals(rest)
        invariant Wait(Q(), reqBytes, rest, waitCount) == goal
        invariant State() == old(State()).(q := Q())
        decreases waitCount
      {
        if rest != [] {
          TakeArrivals(rest[0]);
          rest := rest[1..];
        }
        if waitCount == 0 {
          return 0 - ETIMEDOUT;
        }
        waitCount := waitCount - 1;
      }
      return 0;
    }

    /** fifo_read into the playback buffer. */
    method ReadSpkFifo(reqBytes: nat)
      requires fifos == Live && reqBytes % 2 == 0 && reqBytes <= |spkFifo|
      requires reqBytes / 2 <= spkBufPlaybackFormat.Length
      modifies this`spkFifo, spkBufPlaybackFormat
      ensures State() == old(State()).(q := old(Q()).(spk := old(spkFifo)[reqBytes..]))
      ensures spkBufPlaybackFormat[..reqBytes / 2] == SamplesOf(old(spkFifo)[..reqBytes])
    {
      var audio := spkFifo[..reqBytes];
      for i := 0 to reqBytes / 2
        invariant spkFifo == old(spkFifo)
        invariant forall k :: 0 <= k < i ==> spkBufPlaybackFormat[k] == SamplesOf(audio)[k]
      {
        spkBufPlaybackFormat[i] := Le16(audio[2 * i].value, audio[2 * i + 1].value);
      }
      spkFifo := spkFifo[reqBytes..];
    }

    /** The second half of get_reference_samples, on the buffers alone: the audio is mixed down if
        the reference is mono, resampled if the rates differ, and widened. */
    method ConvertReference(ghost samples: seq<int16>, frames: nat, inFrames: nat, resampled: seq<int16>,
                            dst: array<int32>)
      requires config.spkChannels > 0 && spkBufPlaybackFormat != spkBufResamplerOut
      requires |samples| == inFrames * config.spkChannels <= spkBufPlaybackFormat.Length
      requires spkBufPlaybackFormat[..inFrames * config.spkChannels] == samples
      requires |resampled| <= frames * config.refChannels <= dst.Length
      requires config.spkRate == config.micRate ==> frames * config.refChannels <= spkBufPlaybackFormat.Length
      requires config.spkRate != config.micRate ==> frames * config.refChannels <= spkBufResamplerOut.Length
      modifies dst, spkBufPlaybackFormat, spkBufResamplerOut
      ensures config.spkRate == config.micRate ==>
        Widened(dst[..], Mixed(samples, inFrames, config.spkChannels, config.refChannels), frames * config.refChannels)
      ensures config.spkRate != config.micRate ==>
        Widened(dst[..], resampled, frames * config.refChannels)
    {
      ghost var was := spkBufPlaybackFormat[..];
      GetReferenceAudioInPlace(spkBufPlaybackFormat, inFrames, config.refChannels, config.spkChannels);
      ghost var mixed := Mixed(samples, inFrames, config.spkChannels, config.refChannels);
      assert forall i :: 0 <= i < |mixed| ==> spkBufPlaybackFormat[i] == mixed[i] by {
        DownmixPrefix(was, samples, inFrames, config.spkChannels);
      }
      if config.spkRate != config.micRate {
        forall i | 0 <= i < |resampled| {
          spkBufResamplerOut[i] := resampled[i];
        }
        WidenTo32(spkBufResamplerOut, dst, frames, config.refChannels);
      } else {
        WidenTo32(spkBufPlaybackFormat, dst, frames, config.refChannels);
      }
    }

    /** The sizes of one read fit the buffers. */
    predicate FitsBuffers(frames: nat, inFrames: nat, resampled: seq<int16>, dst: array<int32>)
      reads this
    {
      && config.spkChannels > 0 && config.spkRate > 0
      && spkBufPlaybackFormat != spkBufResamplerOut
      && inFrames * config.spkChannels <= spkBufPlaybackFormat.Length
      && |resampled| <= frames * config.refChannels <= dst.Length
      && (config.spkRate == config.micRate ==> frames * config.refChannels <= spkBufPlaybackFormat.Length)
      && (config.spkRate != config.micRate ==> frames * config.refChannels <= spkBufResamplerOut.Length)
    }

    /** BuffersSuffice, for the buffers as allocated. */
    lemma SizesFit(bytes: nat, resampled: seq<int16>)
      requires Valid() && bytes <= config.MicBufBytes()
      requires |resampled| <= config.Frames(bytes) * config.refChannels
      ensures FitsBuffers(config.Frames(bytes), config.ResamplerInFrames(bytes), resampled, spkBuf)
      ensures config.RequiredBytes(bytes) == 2 * (config.ResamplerInFrames(bytes) * config.spkChannels)
    {
      BuffersSuffice(config, bytes);
      InElements(config.PlaybackBytes(), config.SpkBufBytes(), config.ResamplerInFrames(bytes) * config.spkChannels,
                 config.Frames(bytes) * config.refChannels, config.spkRate == config.micRate);
      TwiceOut(config.ResamplerInFrames(bytes), config.spkChannels);
    }

    /** get_reference_samples once the sizes are computed: `frames` at the microphone's rate,
        `inFrames` at the speaker's, `need` bytes of audio.  `resampled` is what the resampler, if
        there is one, puts out. */
    method GetReferenceSamples(frames: nat, inFrames: nat, need: nat, rate: nat,
                               arrivals: seq<seq<Write>>, resampled: seq<int16>, dst: array<int32>)
      returns (ret: int, timestampUsec: int)
      requires FitsBuffers(frames, inFrames, resampled, dst) && ValidArrivals(arrivals) && Consistent(State())
      requires need == 2 * (inFrames * config.spkChannels) && rate == SpkBytesPerSecond(config) > 0
      modifies this, dst, spkBufPlaybackFormat, spkBufResamplerOut
      ensures !old(spkInitialized) ==> ret == 0 - EINVAL && State() == old(State())
      ensures old(spkInitialized) ==>
        var (enough, q) := Wait(old(Q()), need, arrivals, MAX_READ_WAIT_TIME_MSEC);
        if !enough then ret == 0 - ETIMEDOUT && State() == old(State()).(q := q)
        else
          && ret == 0
          && State() == old(State()).(q := ReadReference(q, need, rate).1)
          && timestampUsec == ReadReference(q, need, rate).0
          && Widened(dst[..], if config.spkRate == config.micRate
                                 then Mixed(SamplesOf(q.spk[..need]), inFrames, config.spkChannels, config.refChannels)
                                 else resampled, frames * config.refChannels)
    {
      timestampUsec := 0;
      if !spkInitialized {
        return 0 - EINVAL, 0;
      }
      ret := WaitForAudio(need, arrivals);
      if ret != 0 {
        return;
      }
      ghost var audio := spkFifo[..need];
      ReadSpkFifo(need);
      timestampUsec := GetSpkTimestamp(need);
      ConvertReference(SamplesOf(audio), frames, inFrames, resampled, dst);
    }

    /** in_read of the echo reference, into the caller's buffer of `samples` samples: silence while the
        speaker is not running, and after a read that fails or finds no time. */
    method EchoRead(dst: array<int32>, samples: nat, frames: nat, inFrames: nat, need: nat, rate: nat,
                    arrivals: seq<seq<Write>>, resampled: seq<int16>)
      returns (timestampUsec: int)
      requires FitsBuffers(frames, inFrames, resampled, dst) && ValidArrivals(arrivals) && Consistent(State())
      requires samples <= dst.Length
      requires need == 2 * (inFrames * config.spkChannels) && rate == SpkBytesPerSecond(config) > 0
      modifies this, dst, spkBufPlaybackFormat, spkBufResamplerOut
      ensures State() == EchoReadOf(old(State()), rate, need, arrivals).0
      ensures timestampUsec
           == match EchoReadOf(old(State()), rate, need, arrivals).1 case None => 0 case Some(read) => read.1
      ensures timestampUsec == 0 ==> forall i :: 0 <= i < samples ==> dst[i] == 0
      ensures timestampUsec != 0 ==>
        Widened(dst[..], if config.spkRate == config.micRate
                         then Mixed(SamplesOf(EchoReadOf(old(State()), rate, need, arrivals).1.value.0), inFrames,
                                    config.spkChannels, config.refChannels)
                         else resampled, frames * config.refChannels)
    {
      timestampUsec := 0;
      var ret := 0;
      if spkRunning {
        ret, timestampUsec := GetReferenceSamples(frames, inFrames, need, rate, arrivals, resampled, dst);
      }
      if ret != 0 || timestampUsec == 0 {
        timestampUsec := 0;
        forall i | 0 <= i < samples {
          dst[i] := 0;
        }
      }
    }

    /** The comparison of the two times. */
    static method CheckDivergence(micTime: nat, spkTime: int) returns (diverged: bool)
      ensures !diverged <==> micTime != 0 && spkTime != 0 && micTime - 200_000 <= spkTime <= micTime + 200_000
      ensures diverged == Diverged(micTime, spkTime)
    {
      var timeDiff := if micTime > spkTime then micTime - spkTime else spkTime - micTime;
      diverged := spkTime == 0 || micTime == 0 || timeDiff > MAX_TIMESTAMP_DIFF_USEC;
    }

    /** What process_aec does with a reference: unless the times have diverged, run the canceller. */
    method Cancel(buffer: array<Byte>, bytes: nat, micTime: nat, spkTime: int, status: int, cancelled: seq<Byte>)
      returns (ret: int)
      requires fifos == Live && bytes <= buffer.Length && |cancelled| == bytes
      modifies this`spkFifo, this`tsFifo, this`readWriteDiffBytes, buffer
      ensures buffer[bytes..] == old(buffer[bytes..])
      ensures if Diverged(micTime, spkTime)
              then ret == 0 && State() == old(State()).(q := Flush(old(Q()))) && buffer[..bytes] == old(buffer[..bytes])
              else
                && ret == (if status == 0 then 0 - EINVAL else 0) && State() == old(State())
                && buffer[..bytes] == cancelled
    {
      ret := 0;
      var diverged := CheckDivergence(micTime, spkTime);
      if diverged {
        FlushAecFifos();
        return;
      }
      forall i | 0 <= i < bytes {
        buffer[i] := cancelled[i];
      }
      if status == 0 {
        ret := 0 - EINVAL;
      }
    }

    /** The middle of process_aec: read the reference and run the canceller on it.  The result is
        the error code before the clean-up at the exit. */
    method RunCanceller(buffer: array<Byte>, bytes: nat, micTime: nat, frames: nat, inFrames: nat, need: nat, rate: nat,
                        arrivals: seq<seq<Write>>, resampled: seq<int16>, status: int, cancelled: seq<Byte>)
      returns (ret: int)
      requires FitsBuffers(frames, inFrames, resampled, spkBuf) && ValidArrivals(arrivals)
      requires spkInitialized && Consistent(State())
      requires need == 2 * (inFrames * config.spkChannels) && rate == SpkBytesPerSecond(config) > 0
      requires bytes <= buffer.Length && |cancelled| == bytes && buffer !in WorkBuffers()
      modifies this, buffer, spkBuf, spkBufPlaybackFormat, spkBufResamplerOut
      ensures buffer[bytes..] == old(buffer[bytes..])
      ensures var (enough, q) := Wait(old(Q()), need, arrivals, MAX_READ_WAIT_TIME_MSEC);
        if !enough then ret == 0 - ENOMEM && State() == old(State()).(q := q) else
        var (spkTime, q') := ReadReference(q, need, rate);
        if Diverged(micTime, spkTime) then
          ret == 0 && State() == old(State()).(q := Flush(q')) && buffer[..bytes] == old(buffer[..bytes])
        else
          ret == (if status == 0 then 0 - EINVAL else 0) && State() == old(State()).(q := q')
          && buffer[..bytes] == cancelled
    {
      var refRet, spkTime := GetReferenceSamples(frames, inFrames, need, rate, arrivals, resampled, spkBuf);
      if refRet != 0 {
        return 0 - ENOMEM;
      }
      ret := Cancel(buffer, bytes, micTime, spkTime, status, cancelled);
    }

    /** memcpy of microphone audio. */
    static method CopyMic(from: array<Byte>, to: array<Byte>, bytes: nat)
      requires from != to && bytes <= from.Length && bytes <= to.Length
      modifies to
      ensures to[..bytes] == from[..bytes] && to[bytes..] == old(to[bytes..])
    {
      forall i | 0 <= i < bytes {
        to[i] := from[i];
      }
    }

    /** The part of process_aec that runs while the speaker does. */
    method ProcessRunning(buffer: array<Byte>, bytes: nat, micTime: nat, frames: nat, inFrames: nat, need: nat,
                          rate: nat,
                          arrivals: seq<seq<Write>>, resampled: seq<int16>, status: int, cancelled: seq<Byte>)
      returns (ret: int)
      requires FitsBuffers(frames, inFrames, resampled, spkBuf) && ValidArrivals(arrivals)
      requires spkInitialized && Consistent(State())
      requires need == 2 * (inFrames * config.spkChannels) && rate == SpkBytesPerSecond(config) > 0
      requires bytes <= buffer.Length && |cancelled| == bytes && buffer !in WorkBuffers()
      modifies this, buffer, spkBuf, spkBufPlaybackFormat, spkBufResamplerOut
      ensures buffer[bytes..] == old(buffer[bytes..])
      ensures var start := Starting(old(State()));
        if start.spk == [] then
          ret == 0 && State() == old(State()).(q := start) && buffer[..bytes] == old(buffer[..bytes])
        else
        var (enough, q) := Wait(start, need, arrivals, MAX_READ_WAIT_TIME_MSEC);
        if !enough then ret == 0 - ENOMEM && State() == old(State()).(q := q) else
        var (spkTime, q') := ReadReference(q, need, rate);
        if Diverged(micTime, spkTime) then
          ret == 0 && State() == old(State()).(q := Flush(q')) && buffer[..bytes] == old(buffer[..bytes])
        else
          ret == (if status == 0 then 0 - EINVAL else 0) && State() == old(State()).(q := q')
          && buffer[..bytes] == cancelled
    {
      ret := 0;
      if !prevSpkRunning {
        FlushAecFifos();
      }
      if spkFifo != [] {
        ret := RunCanceller(buffer, bytes, micTime, frames, inFrames, need, rate, arrivals, resampled, status,
                            cancelled);
      }
    }

    /** The exit of process_aec: after an error the raw microphone signal is put back. */
    method Finish(buffer: array<Byte>, bytes: nat, running: bool, ret: int)
      requires fifos == Live && buffer != micBuf && bytes <= micBuf.Length && bytes <= buffer.Length
      modifies this`prevSpkRunning, this`spkFifo, this`tsFifo, this`readWriteDiffBytes, buffer
      ensures buffer[bytes..] == old(buffer[bytes..])
      ensures State() == old(State()).(prevSpkRunning := running, q := if ret == 0 then old(Q()) else Flush(old(Q())))
      ensures buffer[..bytes] == if ret == 0 then old(buffer[..bytes]) else micBuf[..bytes]
    {
      prevSpkRunning := running;
      if ret != 0 {
        CopyMic(micBuf, buffer, bytes);
        FlushAecFifos();
      }
    }

    /** process_aec once the sizes are computed. */
    method ProcessSized(buffer: array<Byte>, bytes: nat, micTime: nat, frames: nat, inFrames: nat, need: nat, rate: nat,
                        arrivals: seq<seq<Write>>, resampled: seq<int16>, status: int, cancelled: seq<Byte>)
      returns (ret: int)
      requires FitsBuffers(frames, inFrames, resampled, spkBuf) && ValidArrivals(arrivals) && Consistent(State())
      requires need == 2 * (inFrames * config.spkChannels) && rate == SpkBytesPerSecond(config) > 0
      requires bytes <= micBuf.Length && bytes <= buffer.Length && |cancelled| == bytes
      requires buffer != micBuf && buffer !in WorkBuffers() && micBuf !in WorkBuffers()
      modifies this, buffer, micBuf, spkBuf, spkBufPlaybackFormat, spkBufResamplerOut
      ensures var r := AecProcess.ProcessAec(old(State()), rate,
                                             Call(old(buffer[..bytes]), micTime, need, arrivals, status, cancelled));
        ret == r.ret && State() == r.device && buffer[..bytes] == r.buffer
      ensures buffer[bytes..] == old(buffer[bytes..])
    {
      ret := 0;
      if !micInitialized || !spkInitialized {
        return 0 - EINVAL;
      }
      CopyMic(buffer, micBuf, bytes);
      var running := spkRunning;
      if running {
        ret := ProcessRunning(buffer, bytes, micTime, frames, inFrames, need, rate, arrivals, resampled, status,
                              cancelled);
      }
      Finish(buffer, bytes, running, ret);
    }

    /** process_aec.  `status` and `cancelled` are what the canceller returns and writes.  Unless the
        canceller succeeds on a reference of a plausible time, the buffer is as it was; an error past the
        init checks leaves both queues empty; and a call that does not end in a cancellation leaves nothing
        that a later call would use without a flush. */
    method ProcessAec(buffer: array<Byte>, bytes: nat, micTime: nat, arrivals: seq<seq<Write>>,
                      resampled: seq<int16>, status: int, cancelled: seq<Byte>) returns (ret: int)
      requires Valid() && ValidArrivals(arrivals)
      requires bytes <= config.MicBufBytes() && bytes <= buffer.Length && |cancelled| == bytes
      requires |resampled| <= config.Frames(bytes) * config.refChannels
      requires buffer != micBuf && buffer !in WorkBuffers()
      modifies this, buffer, micBuf, spkBuf, spkBufPlaybackFormat, spkBufResamplerOut
      ensures SpkBytesPerSecond(config) > 0
      ensures var r := AecProcess.ProcessAec(old(State()), SpkBytesPerSecond(config),
        Call(old(buffer[..bytes]), micTime, config.RequiredBytes(bytes), arrivals, status, cancelled));
        ret == r.ret && State() == r.device && buffer[..bytes] == r.buffer
      ensures buffer[bytes..] == old(buffer[bytes..])
      ensures var cancels := Cancels(old(State()), SpkBytesPerSecond(config),
        Call(old(buffer[..bytes]), micTime, config.RequiredBytes(bytes), arrivals, status, cancelled));
        && (if cancels then ret == 0 && buffer[..bytes] == cancelled else buffer[..bytes] == old(buffer[..bytes]))
        && (!cancels && PastInitChecks(old(State())) ==> CleanSlate(State()))
      ensures ret != 0 && PastInitChecks(old(State())) ==> spkFifo == [] && tsFifo == [] && readWriteDiffBytes == 0
    {
      RateIsPositive(config);
      SizesFit(bytes, resampled);
      ghost var was := State();
      ghost var call := Call(buffer[..bytes], micTime, config.RequiredBytes(bytes), arrivals, status, cancelled);
      ret := ProcessSized(buffer, bytes, micTime, config.Frames(bytes), config.ResamplerInFrames(bytes),
                          config.RequiredBytes(bytes), SpkBytesPerSecond(config), arrivals, resampled, status,
                          cancelled);
      BufferIsRawUnlessCancelled(was, SpkBytesPerSecond(config), call);
      if PastInitChecks(was) && !Cancels(was, SpkBytesPerSecond(config), call) {
        CallsThatCleanUp(was, SpkBytesPerSecond(config), call);
      }
    }
  }
}
