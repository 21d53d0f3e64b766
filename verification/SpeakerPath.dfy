/** The playback path of hal/audio/audio_hw.c: out_write equalises a buffer in place, plays it and
    hands the same bytes to the echo reference. */
module SpeakerPath {
  import opened Arith
  import opened Options
  import opened Samples
  import opened AecQueues
  import FirFilter
  import opened AecDevice

  // ---------------------------------------------------------------- samples as bytes

  function LowByte(x: int16): Byte { (x + 0x1_0000) % 0x100 }

  function HighByte(x: int16): Byte { (x + 0x1_0000) / 0x100 % 0x100 }

  /** Samples as they lie in memory, numbered from byte `from` of the stream on. */
  function Encode(s: seq<int16>, from: nat): (r: seq<AudioByte>)
    ensures |r| == 2 * |s|
  {
    seq(2 * |s|, i requires 0 <= i < 2 * |s| =>
      AudioByte(if i % 2 == 0 then LowByte(s[i / 2]) else HighByte(s[i / 2]), from + i))
  }

  lemma SampleRoundTrip(x: int16)
    ensures Le16(LowByte(x), HighByte(x)) == x
  {
  }

  lemma EncodedSample(s: seq<int16>, from: nat, i: nat)
    requires i < |s|
    ensures Encode(s, from)[2 * i].value == LowByte(s[i]) && Encode(s, from)[2 * i + 1].value == HighByte(s[i])
  {
    assert 2 * i / 2 == i && (2 * i + 1) / 2 == i;
  }

  lemma DecodedSample(s: seq<int16>, audio: seq<AudioByte>, i: nat)
    requires i < |s| && |audio| == 2 * |s|
    requires audio[2 * i].value == LowByte(s[i]) && audio[2 * i + 1].value == HighByte(s[i])
    ensures SamplesOf(audio)[i] == s[i]
  {
    SampleRoundTrip(s[i]);
  }

  lemma BytesOfSample(x: int16)
    ensures ((x as int) - LowByte(x) - 0x100 * HighByte(x)) % 0x1_0000 == 0
  {
    var u := x + 0x1_0000;
    var q := u / 0x100 / 0x100;
    assert u == 0x1_0000 * q + 0x100 * HighByte(x) + LowByte(x) && (q == 0 || q == 1);
    var rest := x - LowByte(x) - 0x100 * HighByte(x);
    assert rest == 0 || rest == -0x1_0000;
  }

  /** Samples are little-endian in memory, two bytes each, numbered on. */
  lemma EncodedPlaces(s: seq<int16>, from: nat, i: nat)
    requires i < |s|
    ensures var lo, hi := Encode(s, from)[2 * i], Encode(s, from)[2 * i + 1];
      ((s[i] as int) - lo.value - 0x100 * hi.value) % 0x1_0000 == 0
      && lo.serial == from + 2 * i && hi.serial == from + 2 * i + 1
  {
    EncodedSample(s, from, i);
    BytesOfSample(s[i]);
  }

  /** Reading the bytes back as samples gives the samples. */
  lemma DecodeEncode(s: seq<int16>, from: nat)
    ensures SamplesOf(Encode(s, from)) == s
  {
    var audio := Encode(s, from);
    forall i | 0 <= i < |s|
      ensures SamplesOf(audio)[i] == s[i]
    {
      EncodedSample(s, from, i);
      DecodedSample(s, audio, i);
    }
  }

  lemma EncodeConcat(a: seq<int16>, b: seq<int16>, from: nat)
    ensures Encode(a + b, from) == Encode(a, from) + Encode(b, from + 2 * |a|)
  {
  }

  // ---------------------------------------------------------------- one write

  /** The equaliser's effect: none if there is no equaliser. */
  function Equalised(d: Option<FirFilter.Design>, history: seq<int16>, block: seq<int16>): (r: seq<int16>)
    requires d.Some? ==> d.value.Valid() && |history| == d.value.History()
    ensures |r| == |block|
  {
    if d.None? then block else FirFilter.BlockOutput(d.value, history, block)
  }

  class StreamOut {
    var standby: bool
    var framesWritten: nat
    var timestamp: Timespec
    const channels: nat
    const speakerEq: FirFilter.Filter?
    const aec: Aec

    ghost predicate Valid()
      reads this, speakerEq
    {
      && channels > 0
      && (speakerEq != null ==>
            speakerEq.Valid() && speakerEq.design.Pairable() && speakerEq.design.channels == channels)
    }

    ghost function Design(): Option<FirFilter.Design>
      reads this, speakerEq
    {
      if speakerEq == null then None else Some(speakerEq.design)
    }

    ghost function History(): seq<int16>
      requires Valid()
      reads this, speakerEq, if speakerEq == null then {} else {speakerEq.state}
      ensures speakerEq != null ==> |History()| == speakerEq.design.History()
    {
      if speakerEq == null then [] else speakerEq.History()
    }

    constructor (channels: nat, speakerEq: FirFilter.Filter?, aec: Aec)
      requires channels > 0
      requires speakerEq != null ==>
        speakerEq.Valid() && speakerEq.design.Pairable() && speakerEq.design.channels == channels
      ensures Valid() && standby && this.channels == channels && this.speakerEq == speakerEq && this.aec == aec
    {
      standby, framesWritten, timestamp := true, 0, Timespec(0, 0);
      this.channels, this.speakerEq, this.aec := channels, speakerEq, aec;
    }

    /** do_output_standby: the equaliser forgets the stream, and the canceller sees it stop. */
    method DoOutputStandby()
      requires Valid()
      modifies this`standby, aec`spkRunning, if speakerEq == null then {} else {speakerEq.state}
      ensures standby && aec.State() == old(aec.State()).(spkRunning := false)
      ensures speakerEq != null ==> History() == FirFilter.Silence(speakerEq.design.History())
    {
      if speakerEq != null {
        speakerEq.Reset();
      }
      if !standby {
        standby := true;
      }
      aec.SetSpkRunning(false);
    }

    /** out_write of `frames` frames.  `startOk` and `pcmOk` are the results of opening and writing
        the PCM device, `accepted` what the reference FIFO takes; `from` numbers the bytes.  The write to
        the FIFO relies on the output's not having been closed. */
    method OutWrite(buffer: array<int16>, frames: nat, startOk: bool, pcmOk: bool, stamp: Timespec, accepted: nat,
                    from: nat)
      returns (played: seq<int16>)
      requires aec.fifos.Live?
      requires Valid() && frames * channels <= buffer.Length && accepted <= 2 * (frames * channels)
      requires speakerEq != null ==> frames <= speakerEq.inputLength && buffer != speakerEq.state
      modifies this, buffer, aec, if speakerEq == null then {} else {speakerEq.state}
      ensures Valid()
      // a stream that does not start changes nothing
      ensures old(standby) && !startOk ==>
        && standby && played == [] && buffer[..] == old(buffer[..])
        && History() == old(History()) && aec.State() == old(aec.State())
      // otherwise the buffer is equalised in place and played
      ensures !old(standby) || startOk ==>
        && !standby
        && buffer[..frames * channels] == Equalised(Design(), old(History()), old(buffer[..frames * channels]))
        && buffer[frames * channels..] == old(buffer[frames * channels..])
        && (speakerEq != null ==> History() == FirFilter.NextHistory(old(History()), old(buffer[..frames * channels])))
        && (pcmOk ==>
              && played == buffer[..frames * channels] && framesWritten == old(framesWritten) + frames
              && aec.State().q == WritePacket(old(aec.Q()), Encode(played, from), accepted, stamp))
        && (!pcmOk ==> played == [] && framesWritten == old(framesWritten) && aec.State().q == old(aec.Q()))
        && aec.spkRunning == (old(standby) || old(aec.spkRunning))
    {
      played := [];
      MulLeq(0, frames, channels);
      if standby {
        if !startOk {
          return;
        }
        standby := false;
        aec.SetSpkRunning(true);
      }
      if speakerEq != null {
        speakerEq.ProcessInterleaved(buffer, buffer, frames);
      }
      if pcmOk {
        played := buffer[..frames * channels];
        framesWritten := framesWritten + frames;
        timestamp := stamp;
        var _ := aec.WriteToReferenceFifo(Encode(played, from), stamp, accepted);
      }
    }
  }

  // ---------------------------------------------------------------- a stretch of playback

  /** What happens between two standbys and without a flush: blocks are written in full, reference
      bytes are read. */
  datatype Event = Block(samples: seq<int16>, stamp: Timespec) | Reference(n: nat)

  /** The queues, the equaliser's history, the bytes written so far and those read. */
  datatype Path = Path(q: Queues, history: seq<int16>, written: nat, read: seq<AudioByte>)

  predicate Enabled(p: Path, e: Event) {
    e.Reference? ==> e.n <= |p.q.spk|
  }

  function Step(p: Path, d: FirFilter.Design, e: Event, rate: nat): (p': Path)
    requires d.Valid() && |p.history| == d.History() && Enabled(p, e) && rate > 0
    ensures |p'.history| == d.History()
  {
    match e
    case Block(samples, stamp) =>
      var audio := Encode(FirFilter.BlockOutput(d, p.history, samples), p.written);
      Path(WritePacket(p.q, audio, |audio|, stamp), FirFilter.NextHistory(p.history, samples), p.written + |audio|,
           p.read)
    case Reference(n) =>
      p.(q := ReadReference(p.q, n, rate).1, read := p.read + p.q.spk[..n])
  }

  ghost predicate Runnable(d: FirFilter.Design, events: seq<Event>, rate: nat)
    requires d.Valid() && rate > 0
    decreases |events|, 0
  {
    events == [] ||
    (Runnable(d, events[..|events| - 1], rate) && Enabled(Run(d, events[..|events| - 1], rate), events[|events| - 1]))
  }

  /** A run from a reset, with empty queues. */
  ghost function Run(d: FirFilter.Design, events: seq<Event>, rate: nat): (p: Path)
    requires d.Valid() && rate > 0 && Runnable(d, events, rate)
    ensures |p.history| == d.History()
    decreases |events|, 1
  {
    if events == [] then Path(INITIAL, FirFilter.Silence(d.History()), 0, [])
    else Step(Run(d, events[..|events| - 1], rate), d, events[|events| - 1], rate)
  }

  function Blocks(events: seq<Event>): seq<seq<int16>> {
    if events == [] then []
    else Blocks(events[..|events| - 1])
         + if events[|events| - 1].Block? then [events[|events| - 1].samples] else []
  }

  /** The bytes read and those queued, in order. */
  function Heard(p: Path): seq<AudioByte> {
    p.read + p.q.spk
  }

  lemma ReadHeard(p: Path, d: FirFilter.Design, e: Event, rate: nat)
    requires d.Valid() && |p.history| == d.History() && Enabled(p, e) && rate > 0 && e.Reference?
    ensures Heard(Step(p, d, e, rate)) == Heard(p)
  {
    ReadLeaves(p.q, e.n, rate);
    assert p.q.spk == p.q.spk[..e.n] + p.q.spk[e.n..];
  }

  lemma ReadLeaves(q: Queues, n: nat, rate: nat)
    requires n <= |q.spk| && rate > 0
    ensures ReadReference(q, n, rate).1.spk == q.spk[n..]
  {
  }

  lemma WriteLeaves(q: Queues, audio: seq<AudioByte>, n: nat, stamp: Timespec)
    requires n == |audio|
    ensures WritePacket(q, audio, n, stamp).spk == q.spk + audio
  {
    assert audio[..n] == audio;
  }

  lemma Regrouped(a: seq<AudioByte>, b: seq<AudioByte>, c: seq<AudioByte>)
    ensures a + (b + c) == (a + b) + c
  {
  }

  lemma BlockHeard(p: Path, d: FirFilter.Design, e: Event, rate: nat)
    requires d.Valid() && |p.history| == d.History() && rate > 0 && e.Block?
    ensures Heard(Step(p, d, e, rate)) == Heard(p) + Encode(FirFilter.BlockOutput(d, p.history, e.samples), p.written)
  {
    var audio := Encode(FirFilter.BlockOutput(d, p.history, e.samples), p.written);
    WriteLeaves(p.q, audio, |audio|, e.stamp);
    Regrouped(p.read, p.q.spk, audio);
  }

  /** What a stretch of playback has produced, as the filter specifies it. */
  ghost predicate Follows(p: Path, d: FirFilter.Design, blocks: seq<seq<int16>>)
    requires d.Valid()
  {
    && Heard(p) == Encode(FirFilter.StreamOutput(d, blocks), 0)
    && p.written == |Heard(p)|
    && p.history == FirFilter.HistoryAfter(d, blocks)
  }

  lemma AppendEncoded(stream: seq<int16>, out: seq<int16>, heard: seq<AudioByte>, written: nat)
    requires heard == Encode(stream, 0) && written == |heard|
    ensures heard + Encode(out, written) == Encode(stream + out, 0)
    ensures written + |Encode(out, written)| == |Encode(stream + out, 0)|
  {
    EncodeConcat(stream, out, 0);
  }

  lemma BlockFollows(p: Path, d: FirFilter.Design, blocks: seq<seq<int16>>, e: Event, rate: nat)
    requires d.Valid() && rate > 0 && e.Block? && Follows(p, d, blocks)
    ensures Follows(Step(p, d, e, rate), d, blocks + [e.samples])
  {
    BlockHeard(p, d, e, rate);
    FirFilter.AppendBlock(d, blocks, e.samples);
    AppendEncoded(FirFilter.StreamOutput(d, blocks), FirFilter.BlockOutput(d, p.history, e.samples), Heard(p),
                  p.written);
  }

  lemma {:induction false} HeardIsStreamOutput(d: FirFilter.Design, events: seq<Event>, rate: nat)
    requires d.Valid() && rate > 0 && Runnable(d, events, rate)
    ensures Follows(Run(d, events, rate), d, Blocks(events))
  {
    if events != [] {
      var before, e := events[..|events| - 1], events[|events| - 1];
      HeardIsStreamOutput(d, before, rate);
      if e.Block? {
        BlockFollows(Run(d, before, rate), d, Blocks(before), e, rate);
      } else {
        ReadHeard(Run(d, before, rate), d, e, rate);
        assert Blocks(events) == Blocks(before);
      }
    }
  }

  /** The canceller hears what the speaker plays: over any such run, the reference bytes read so far,
      followed by those still queued, are the equalised stream, the convolution of all that was
      written, byte for byte and in order. */
  lemma ReferenceIsEqualisedStream(d: FirFilter.Design, events: seq<Event>, rate: nat)
    requires d.Valid() && rate > 0 && Runnable(d, events, rate)
    requires FirFilter.WholeFrames(Blocks(events), d.channels)
    ensures Heard(Run(d, events, rate)) == Encode(FirFilter.Convolution(d, FirFilter.Concat(Blocks(events))), 0)
    ensures SamplesOf(Heard(Run(d, events, rate))) == FirFilter.Convolution(d, FirFilter.Concat(Blocks(events)))
  {
    HeardIsStreamOutput(d, events, rate);
    FirFilter.StreamingIsConvolution(d, Blocks(events));
    DecodeEncode(FirFilter.Convolution(d, FirFilter.Concat(Blocks(events))), 0);
  }
}
