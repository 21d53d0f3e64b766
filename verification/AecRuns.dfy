/** Runs of the echo-reference queues: packet writes, reference reads and flushes in any order. */
module AecRuns {
  import opened Arith
  import opened Options
  import opened AecQueues

  datatype Event =
    | Packet(audio: seq<AudioByte>, accepted: nat, stamp: Timespec)
    | Reference(n: nat)
    | Flushing

  predicate Enabled(q: Queues, e: Event) {
    match e
    case Packet(audio, accepted, _) => accepted <= |audio|
    case Reference(n) => n <= |q.spk|
    case Flushing => true
  }

  function Step(q: Queues, e: Event, rate: nat): Queues
    requires Enabled(q, e) && rate > 0
  {
    match e
    case Packet(audio, accepted, stamp) => WritePacket(q, audio, accepted, stamp)
    case Reference(n) => ReadReference(q, n, rate).1
    case Flushing => Flush(q)
  }

  predicate Runnable(q: Queues, events: seq<Event>, rate: nat)
    requires rate > 0
    decreases |events|
  {
    events == [] || (Enabled(q, events[0]) && Runnable(Step(q, events[0], rate), events[1..], rate))
  }

  function Run(q: Queues, events: seq<Event>, rate: nat): Queues
    requires rate > 0 && Runnable(q, events, rate)
    decreases |events|
  {
    if events == [] then q else Run(Step(q, events[0], rate), events[1..], rate)
  }

  /** The times reported by the reads of a run, in order. */
  function Times(q: Queues, events: seq<Event>, rate: nat): seq<int>
    requires rate > 0 && Runnable(q, events, rate)
    decreases |events|
  {
    if events == [] then []
    else (if events[0].Reference? then [ReadReference(q, events[0].n, rate).0] else [])
         + Times(Step(q, events[0], rate), events[1..], rate)
  }

  /** Some read of the run finds no timestamp, or its fast-forward loop breaks at the end of the FIFO. */
  predicate RunsOutOfTimestamps(q: Queues, events: seq<Event>, rate: nat)
    requires rate > 0 && Runnable(q, events, rate)
    decreases |events|
  {
    events != [] &&
    (|| (events[0].Reference? && events[0].n > 0 && (NoNewTimestamps(q) || Step(q, events[0], rate).diff > 0))
     || RunsOutOfTimestamps(Step(q, events[0], rate), events[1..], rate))
  }

  // ---------------------------------------------------------------- the specification's runs

  function SpecStep(unread: seq<Tag>, e: Event): seq<Tag> {
    match e
    case Packet(_, accepted, stamp) => unread + PacketTags(AecInfo(stamp, accepted))
    case Reference(n) => if n <= |unread| then unread[n..] else []
    case Flushing => []
  }

  function SpecRun(unread: seq<Tag>, events: seq<Event>): seq<Tag>
    decreases |events|
  {
    if events == [] then unread else SpecRun(SpecStep(unread, events[0]), events[1..])
  }

  /** The first unread byte, if there is one. */
  function HeadOf(unread: seq<Tag>): Option<Tag> {
    if unread == [] then None else Some(unread[0])
  }

  /** The first unread bytes that the reads of a run find, in order. */
  function Heads(unread: seq<Tag>, events: seq<Event>): seq<Option<Tag>>
    decreases |events|
  {
    if events == [] then []
    else (if events[0].Reference? then [HeadOf(unread)] else []) + Heads(SpecStep(unread, events[0]), events[1..])
  }

  /** The time that a read is to report: that of the first unread byte, or 0 if there is none. */
  predicate TimedAs(time: int, head: Option<Tag>, rate: nat) {
    match head
    case None => time == 0
    case Some(tag) => TimesByte(time, tag, rate)
  }

  predicate Timed(times: seq<int>, heads: seq<Option<Tag>>, rate: nat) {
    |times| == |heads| && forall k :: 0 <= k < |times| ==> TimedAs(times[k], heads[k], rate)
  }

  lemma TimedConcat(t: seq<int>, h: seq<Option<Tag>>, times: seq<int>, heads: seq<Option<Tag>>, rate: nat)
    requires |t| == |h|
    ensures Timed(t + times, h + heads, rate) <==> Timed(t, h, rate) && Timed(times, heads, rate)
  {
    if Timed(t + times, h + heads, rate) {
      forall k | 0 <= k < |t|
        ensures TimedAs(t[k], h[k], rate)
      {
        assert TimedAs((t + times)[k], (h + heads)[k], rate);
      }
      forall k | 0 <= k < |times|
        ensures TimedAs(times[k], heads[k], rate)
      {
        assert TimedAs((t + times)[|t| + k], (h + heads)[|t| + k], rate);
      }
    }
  }

  /** As a function. */
  function HeadTime(unread: seq<Tag>, rate: nat): (r: int)
    requires rate > 0
    ensures TimedAs(r, HeadOf(unread), rate)
  {
    if unread == [] then 0 else TagTime(unread[0], rate)
  }

  lemma TimedOnce(time: int, unread: seq<Tag>, rate: nat)
    requires rate > 0 && TimedAs(time, HeadOf(unread), rate)
    ensures time == HeadTime(unread, rate)
  {
    if unread != [] { TimesByteOnce(time, HeadTime(unread, rate), unread[0], rate); }
  }

  // ---------------------------------------------------------------- conservation over every run

  ghost predicate Inv(q: Queues) {
    Conserved(q, None) && q.diff <= 0
  }

  /** With no half-done write, unread audio always has a timestamp. */
  lemma UnreadHasTimestamp(q: Queues)
    requires Inv(q) && q.spk != []
    ensures !NoNewTimestamps(q)
  {
    ConservationInBytes(q, None);
  }

  lemma PacketAppends(q: Queues, audio: seq<AudioByte>, accepted: nat, stamp: Timespec)
    requires Inv(q) && accepted <= |audio|
    ensures var q' := WritePacket(q, audio, accepted, stamp);
      Inv(q') && Unread(q', None) == Unread(q, None) + PacketTags(AecInfo(stamp, accepted))
  {
    var info := AecInfo(stamp, accepted);
    var q' := WritePacket(q, audio, accepted, stamp);
    assert Records(q', None) == Records(q, None) + [info];
    AllTagsConcat(Records(q, None), [info]);
    assert AllTags([info]) == PacketTags(info) + AllTags([info][1..]);
  }

  lemma StepKeepsInvariant(q: Queues, e: Event, rate: nat)
    requires Inv(q) && Enabled(q, e) && rate > 0
    ensures var q' := Step(q, e, rate);
      Inv(q') && Unread(q', None) == SpecStep(Unread(q, None), e)
  {
    match e
    case Packet(audio, accepted, stamp) => PacketAppends(q, audio, accepted, stamp);
    case Reference(n) =>
      if n > 0 { UnreadHasTimestamp(q); }
      if !NoNewTimestamps(q) {
        ReadKeepsConservation(q, n, None, rate);
        ConservationInBytes(Step(q, e, rate), None);
      }
    case Flushing =>
      ConservationInBytes(Flush(q), None);
  }

  /** Two-queue conservation, over every run: whatever was written, read and flushed, the counter
      lies between minus the current packet and zero, the queued records account for the unread
      audio, and neither "no new timestamps" nor the end-of-FIFO break is ever reached. */
  lemma {:induction false} RunConserves(q: Queues, events: seq<Event>, rate: nat)
    requires Inv(q) && rate > 0 && Runnable(q, events, rate)
    ensures var q' := Run(q, events, rate);
      && 0 - q'.last.bytes <= q'.diff <= 0
      && SumBytes(q'.ts) == |q'.spk| + q'.diff
      && Inv(q') && Unread(q', None) == SpecRun(Unread(q, None), events)
    ensures !RunsOutOfTimestamps(q, events, rate)
    decreases |events|
  {
    if events == [] {
      ConservationInBytes(q, None);
    } else {
      if events[0].Reference? && events[0].n > 0 { UnreadHasTimestamp(q); }
      StepKeepsInvariant(q, events[0], rate);
      RunConserves(Step(q, events[0], rate), events[1..], rate);
    }
  }

  lemma InitialInv()
    ensures Inv(INITIAL) && Unread(INITIAL, None) == []
  {
    ConservationInBytes(INITIAL, None);
  }

  // ---------------------------------------------------------------- exact times over every run

  predicate NonEmptyRecords(records: seq<AecInfo>) {
    forall i :: 0 <= i < |records| ==> records[i].bytes > 0
  }

  /** Every packet leaves audio in the FIFO. */
  predicate NonEmpty(events: seq<Event>) {
    forall i :: 0 <= i < |events| && events[i].Packet? ==> events[i].accepted > 0
  }

  lemma {:induction false} FastForwardSuffix(ts: seq<AecInfo>, last: AecInfo, diff: int)
    requires NonEmptyRecords(ts)
    ensures NonEmptyRecords(FastForward(ts, last, diff).0)
    decreases |ts|
  {
    if diff > 0 && ts != [] { FastForwardSuffix(ts[1..], ts[0], diff - ts[0].bytes); }
  }

  lemma StepKeepsNonEmpty(q: Queues, e: Event, rate: nat)
    requires Enabled(q, e) && rate > 0 && NonEmptyRecords(q.ts) && NonEmpty([e])
    ensures NonEmptyRecords(Step(q, e, rate).ts)
  {
    assert [e][0] == e;
    if e.Reference? && !NoNewTimestamps(q) {
      var (info, _, ts, diff) := CurrentRecord(q);
      FastForwardSuffix(ts, info, diff + e.n);
    }
  }

  /** A read of queues in step, with no empty record, reports the time of the first unread byte. */
  lemma ReadIsExact(q: Queues, n: nat, rate: nat)
    requires Inv(q) && NonEmptyRecords(q.ts) && n <= |q.spk| && rate > 0
    ensures TimedAs(ReadReference(q, n, rate).0, HeadOf(Unread(q, None)), rate)
  {
    ConservationInBytes(q, None);
    if q.spk != [] {
      UnreadHasTimestamp(q);
      ReportedTime(q, n, None, rate);
    }
  }

  /** Exact timestamps: in every run of non-empty packets, each read reports the stamp of the packet
      holding its first byte plus the duration of that packet's earlier bytes. */
  lemma {:induction false} RunTimesAreExact(q: Queues, events: seq<Event>, rate: nat)
    requires Inv(q) && NonEmptyRecords(q.ts) && NonEmpty(events)
    requires rate > 0 && Runnable(q, events, rate)
    ensures Timed(Times(q, events, rate), Heads(Unread(q, None), events), rate)
    decreases |events|
  {
    if events != [] {
      var e := events[0];
      assert [e][0] == e;
      StepKeepsInvariant(q, e, rate);
      StepKeepsNonEmpty(q, e, rate);
      if e.Reference? { ReadIsExact(q, e.n, rate); }
      RunTimesAreExact(Step(q, e, rate), events[1..], rate);
      TimedConcat(if e.Reference? then [ReadReference(q, e.n, rate).0] else [],
                  if e.Reference? then [HeadOf(Unread(q, None))] else [],
                  Times(Step(q, e, rate), events[1..], rate), Heads(SpecStep(Unread(q, None), e), events[1..]), rate);
    }
  }

  /** Within the invariant a read's time is exact unless the record at the head is of a write of
      which the audio FIFO took nothing. */
  lemma ExactUnlessEmptyHead(q: Queues)
    requires Inv(q) && q.spk != []
    ensures TimeIsExact(q) <==> !(q.diff == 0 && q.ts != [] && q.ts[0].bytes == 0)
  {
    UnreadHasTimestamp(q);
  }

  /** Such runs: an empty write, as a write of less than a frame makes one, then any audio, of which any
      part is read.  The read is given the time of the empty write. */
  lemma EmptyWriteMisdatesNextAudio(audio: seq<AudioByte>, n: nat, first: Timespec, second: Timespec, rate: nat)
    requires 0 < n <= |audio| && rate > 0
    ensures var events := [Packet([], 0, first), Packet(audio, |audio|, second), Reference(n)];
      && Runnable(INITIAL, events, rate)
      && Times(INITIAL, events, rate) == [Nanoseconds(first) / 1000]
      && Heads([], events) == [Some(Tag(AecInfo(second, |audio|), 0))]
  {
    var e0, e1, e2 := Packet([], 0, first), Packet(audio, |audio|, second), Reference(n);
    var events := [e0, e1, e2];
    assert events[1..] == [e1, e2] && [e1, e2][1..] == [e2] && [e2][1..] == [];
    var q1 := Step(INITIAL, e0, rate);
    var q2 := Step(q1, e1, rate);
    assert q2.spk == audio;
    assert q2.ts == [AecInfo(first, 0), AecInfo(second, |audio|)];
    assert ReadReference(q2, n, rate).0 == TimespecToUsec(first);
    assert Times(q2, [e2], rate) == [ReadReference(q2, n, rate).0] + Times(Step(q2, e2, rate), [], rate);
    assert Times(q1, [e1, e2], rate) == [] + Times(q2, [e2], rate);
    var tags := SpecStep(SpecStep([], e0), e1);
    assert tags[0] == Tag(AecInfo(second, |audio|), 0);
    assert Heads(tags, [e2]) == [Some(tags[0])] + Heads(SpecStep(tags, e2), []);
    assert Heads(SpecStep([], e0), [e1, e2]) == [] + Heads(tags, [e2]);
  }

  // ---------------------------------------------------------------- the timestamp FIFO is big enough

  predicate FullPeriods(events: seq<Event>, period: nat) {
    forall i :: 0 <= i < |events| && events[i].Packet? ==> events[i].accepted == period
  }

  predicate RecordsOf(records: seq<AecInfo>, period: nat) {
    forall i :: 0 <= i < |records| ==> records[i].bytes == period
  }

  lemma {:induction false} SumOfPeriods(records: seq<AecInfo>, period: nat)
    requires RecordsOf(records, period)
    ensures SumBytes(records) == |records| * period
  {
    if records != [] { SumOfPeriods(records[1..], period); }
  }

  lemma {:induction false} FastForwardKeepsPeriods(ts: seq<AecInfo>, last: AecInfo, diff: int, period: nat)
    requires RecordsOf(ts, period)
    ensures RecordsOf(FastForward(ts, last, diff).0, period)
    decreases |ts|
  {
    if diff > 0 && ts != [] { FastForwardKeepsPeriods(ts[1..], ts[0], diff - ts[0].bytes, period); }
  }

  lemma {:induction false} RunKeepsPeriods(q: Queues, events: seq<Event>, rate: nat, period: nat)
    requires RecordsOf(q.ts, period) && FullPeriods(events, period)
    requires rate > 0 && Runnable(q, events, rate)
    ensures RecordsOf(Run(q, events, rate).ts, period)
    decreases |events|
  {
    if events != [] {
      var e := events[0];
      if e.Reference? && !NoNewTimestamps(q) {
        var (info, _, ts, diff) := CurrentRecord(q);
        FastForwardKeepsPeriods(ts, info, diff + e.n, period);
      }
      RunKeepsPeriods(Step(q, e, rate), events[1..], rate, period);
    }
  }

  /** With full-period writes, whenever the audio is within its FIFO of periodCount periods, the
      records are within theirs of periodCount records. */
  lemma TimestampQueueFits(events: seq<Event>, rate: nat, period: nat, periodCount: nat)
    requires rate > 0 && period > 0 && Runnable(INITIAL, events, rate) && FullPeriods(events, period)
    requires |Run(INITIAL, events, rate).spk| <= periodCount * period
    ensures |Run(INITIAL, events, rate).ts| <= periodCount
  {
    InitialInv();
    RunConserves(INITIAL, events, rate);
    RunKeepsPeriods(INITIAL, events, rate, period);
    var q := Run(INITIAL, events, rate);
    SumOfPeriods(q.ts, period);
    if |q.ts| > periodCount { MulLess(periodCount, |q.ts|, period); }
  }

  // ---------------------------------------------------------------- writes split into their two steps

  /** write_to_reference_fifo holds no lock the reader takes, so a reader may run between its two
      FIFO writes.  `pending` is the record of a write whose audio is in and whose record is not. */
  datatype Split = Split(q: Queues, pending: Option<AecInfo>)

  datatype SplitEvent =
    | Audio(audio: seq<AudioByte>, accepted: nat, stamp: Timespec)
    | Record
    | Read(n: nat)
    | Flushed

  predicate SplitEnabled(s: Split, e: SplitEvent) {
    match e
    case Audio(audio, accepted, _) => s.pending.None? && accepted <= |audio|
    case Record => s.pending.Some?
    case Read(n) => n <= |s.q.spk|
    case Flushed => true
  }

  function SplitStep(s: Split, e: SplitEvent, rate: nat): Split
    requires SplitEnabled(s, e) && rate > 0
  {
    match e
    case Audio(audio, accepted, stamp) => Split(WriteAudio(s.q, audio, accepted), Some(AecInfo(stamp, accepted)))
    case Record => Split(WriteRecord(s.q, s.pending.value), None)
    case Read(n) => s.(q := ReadReference(s.q, n, rate).1)
    case Flushed => s.(q := Flush(s.q))
  }

  /** The two interleavings that lose count: audio taken by an early return, and a flush that empties
      the queues while the record of audio it threw away is still to come. */
  predicate Harmless(s: Split, e: SplitEvent) {
    match e
    case Read(n) => !(NoNewTimestamps(s.q) && n > 0)
    case Flushed => !(s.pending.Some? && s.pending.value.bytes > 0)
    case _ => true
  }

  /** Conservation, with the half-done write counted, survives a step if and only if it is harmless. */
  lemma SplitConservesExactly(s: Split, e: SplitEvent, rate: nat)
    requires Conserved(s.q, s.pending) && SplitEnabled(s, e) && rate > 0
    ensures var s' := SplitStep(s, e, rate); Conserved(s'.q, s'.pending) <==> Harmless(s, e)
  {
    var s' := SplitStep(s, e, rate);
    ConservationInBytes(s.q, s.pending);
    ConservationInBytes(s'.q, s'.pending);
    match e
    case Read(n) => ReadConservesExactly(s.q, n, s.pending, rate);
    case Record => SumBytesConcat(s.q.ts, [s.pending.value]);
                   assert SumBytes([s.pending.value]) == s.pending.value.bytes + SumBytes([s.pending.value][1..]);
    case _ =>
  }

  predicate SplitRunnable(s: Split, events: seq<SplitEvent>, rate: nat)
    requires rate > 0
    decreases |events|
  {
    events == [] || (SplitEnabled(s, events[0]) && SplitRunnable(SplitStep(s, events[0], rate), events[1..], rate))
  }

  function SplitRun(s: Split, events: seq<SplitEvent>, rate: nat): Split
    requires rate > 0 && SplitRunnable(s, events, rate)
    decreases |events|
  {
    if events == [] then s else SplitRun(SplitStep(s, events[0], rate), events[1..], rate)
  }

  predicate HarmlessRun(s: Split, events: seq<SplitEvent>, rate: nat)
    requires rate > 0 && SplitRunnable(s, events, rate)
    decreases |events|
  {
    events == [] || (Harmless(s, events[0]) && HarmlessRun(SplitStep(s, events[0], rate), events[1..], rate))
  }

  lemma {:induction false} SplitRunConserves(s: Split, events: seq<SplitEvent>, rate: nat)
    requires Conserved(s.q, s.pending) && rate > 0
    requires SplitRunnable(s, events, rate) && HarmlessRun(s, events, rate)
    ensures var s' := SplitRun(s, events, rate);
      && Conserved(s'.q, s'.pending)
      && SumBytes(s'.q.ts) + (if s'.pending.Some? then s'.pending.value.bytes else 0) == |s'.q.spk| + s'.q.diff
    decreases |events|
  {
    if events == [] {
      ConservationInBytes(s.q, s.pending);
    } else {
      SplitConservesExactly(s, events[0], rate);
      SplitRunConserves(SplitStep(s, events[0], rate), events[1..], rate);
    }
  }

  // ---------------------------------------------------------------- exact times over split runs

  /** A split step on the specification queue: audio arrives with its packet, whose record is then
      nothing new. */
  function SplitSpecStep(unread: seq<Tag>, e: SplitEvent): seq<Tag> {
    match e
    case Audio(_, accepted, stamp) => unread + PacketTags(AecInfo(stamp, accepted))
    case Record => unread
    case Read(n) => if n <= |unread| then unread[n..] else []
    case Flushed => []
  }

  lemma AudioAppends(q: Queues, audio: seq<AudioByte>, accepted: nat, info: AecInfo)
    requires Conserved(q, None) && accepted <= |audio| && info.bytes == accepted
    ensures var q' := WriteAudio(q, audio, accepted);
      Conserved(q', Some(info)) && Unread(q', Some(info)) == Unread(q, None) + PacketTags(info)
  {
    var q' := WriteAudio(q, audio, accepted);
    assert Records(q', Some(info)) == Records(q, None) + [info];
    AllTagsConcat(Records(q, None), [info]);
    assert AllTags([info]) == PacketTags(info) + AllTags([info][1..]);
  }

  /** Every harmless split step acts on the specification queue as specified. */
  lemma SplitStepRefines(s: Split, e: SplitEvent, rate: nat)
    requires Conserved(s.q, s.pending) && SplitEnabled(s, e) && rate > 0 && Harmless(s, e)
    ensures var s' := SplitStep(s, e, rate);
      && Conserved(s'.q, s'.pending)
      && Unread(s'.q, s'.pending) == SplitSpecStep(Unread(s.q, s.pending), e)
  {
    var s' := SplitStep(s, e, rate);
    SplitConservesExactly(s, e, rate);
    match e
    case Audio(audio, accepted, stamp) => AudioAppends(s.q, audio, accepted, AecInfo(stamp, accepted));
    case Record => assert Records(s'.q, None) == Records(s.q, s.pending);
    case Read(n) =>
      if NoNewTimestamps(s.q) {
        assert s.q.spk[0..] == s.q.spk;
      } else {
        ReadKeepsConservation(s.q, n, s.pending, rate);
      }
    case Flushed =>
  }

  /** No record, queued or still to come, is empty. */
  predicate NonEmptySplit(s: Split) {
    NonEmptyRecords(s.q.ts) && (s.pending.Some? ==> s.pending.value.bytes > 0)
  }

  /** Every write leaves audio in the FIFO. */
  predicate NonEmptySplitEvents(events: seq<SplitEvent>) {
    forall i :: 0 <= i < |events| && events[i].Audio? ==> events[i].accepted > 0
  }

  lemma SplitStepKeepsNonEmpty(s: Split, e: SplitEvent, rate: nat)
    requires SplitEnabled(s, e) && rate > 0 && NonEmptySplit(s) && NonEmptySplitEvents([e])
    ensures NonEmptySplit(SplitStep(s, e, rate))
  {
    assert [e][0] == e;
    if e.Read? && !NoNewTimestamps(s.q) {
      var (info, _, ts, diff) := CurrentRecord(s.q);
      FastForwardSuffix(ts, info, diff + e.n);
    }
  }

  /** A read made while no write is half done and the counter is not positive. */
  predicate Quiet(s: Split, e: SplitEvent) {
    e.Read? && s.pending.None? && s.q.diff <= 0
  }

  /** The times that the quiet reads of a run report. */
  function QuietTimes(s: Split, events: seq<SplitEvent>, rate: nat): seq<int>
    requires rate > 0 && SplitRunnable(s, events, rate)
    decreases |events|
  {
    if events == [] then []
    else (if Quiet(s, events[0]) then [ReadReference(s.q, events[0].n, rate).0] else [])
         + QuietTimes(SplitStep(s, events[0], rate), events[1..], rate)
  }

  /** What the same reads find in a specification queue that starts with `unread` and sees every event of
      the run. */
  function QuietHeads(s: Split, unread: seq<Tag>, events: seq<SplitEvent>, rate: nat): seq<Option<Tag>>
    requires rate > 0 && SplitRunnable(s, events, rate)
    decreases |events|
  {
    if events == [] then []
    else (if Quiet(s, events[0]) then [HeadOf(unread)] else [])
         + QuietHeads(SplitStep(s, events[0], rate), SplitSpecStep(unread, events[0]), events[1..], rate)
  }

  /** Exact times with the write split in two: in every harmless run of non-empty writes, a read
      made when no write is half done and the counter is not positive reports the time of its first byte,
      by the packet that delivered it. */
  lemma {:induction false} QuietTimesAreExact(s: Split, events: seq<SplitEvent>, rate: nat)
    requires Conserved(s.q, s.pending) && NonEmptySplit(s) && NonEmptySplitEvents(events) && rate > 0
    requires SplitRunnable(s, events, rate) && HarmlessRun(s, events, rate)
    ensures Timed(QuietTimes(s, events, rate), QuietHeads(s, Unread(s.q, s.pending), events, rate), rate)
    decreases |events|
  {
    if events != [] {
      var e := events[0];
      assert [e][0] == e;
      SplitStepRefines(s, e, rate);
      SplitStepKeepsNonEmpty(s, e, rate);
      if Quiet(s, e) { ReadIsExact(s.q, e.n, rate); }
      var s', unread := SplitStep(s, e, rate), Unread(s.q, s.pending);
      QuietTimesAreExact(s', events[1..], rate);
      TimedConcat(if Quiet(s, e) then [ReadReference(s.q, e.n, rate).0] else [],
                  if Quiet(s, e) then [HeadOf(unread)] else [],
                  QuietTimes(s', events[1..], rate), QuietHeads(s', SplitSpecStep(unread, e), events[1..], rate), rate);
    }
  }

  /** A reader that overtakes the record: any audio is written, any part of it is read before the record
      lands, and the count is lost until the next flush. */
  lemma ReaderOvertakesRecord(audio: seq<AudioByte>, n: nat, stamp: Timespec, rate: nat)
    requires 0 < n <= |audio| && rate > 0
    ensures var events := [Audio(audio, |audio|, stamp), Read(n), Record];
      && SplitRunnable(Split(INITIAL, None), events, rate)
      && var s := SplitRun(Split(INITIAL, None), events, rate);
         s == Split(Queues(audio[n..], [AecInfo(stamp, |audio|)], EMPTY_INFO, 0), None) && !Conserved(s.q, None)
  {
    var info := AecInfo(stamp, |audio|);
    var e0, e1, e2 := Audio(audio, |audio|, stamp), Read(n), Record;
    assert [e0, e1, e2][1..] == [e1, e2] && [e1, e2][1..] == [e2] && [e2][1..] == [];
    var s1 := SplitStep(Split(INITIAL, None), e0, rate);
    assert s1 == Split(Queues(audio, [], EMPTY_INFO, 0), Some(info));
    var s2 := SplitStep(s1, e1, rate);
    assert s2.q == Queues(audio[n..], [], EMPTY_INFO, 0);
    var s3 := SplitStep(s2, e2, rate);
    assert SplitRun(s2, [e2], rate) == s3;
    assert SplitRun(s1, [e1, e2], rate) == s3;
    OneRecord(s3.q, info);
  }

  lemma OneRecord(q: Queues, info: AecInfo)
    requires q.ts == [info]
    ensures Conserved(q, None) <==> 0 <= q.last.bytes + q.diff && info.bytes == |q.spk| + q.diff
  {
    assert SumBytes([info]) == info.bytes + SumBytes([info][1..]);
    ConservationInBytes(q, None);
  }

  /** And a flush that overtakes it: any audio is written and flushed, and its record lands all the same. */
  lemma FlushOvertakesRecord(audio: seq<AudioByte>, stamp: Timespec, rate: nat)
    requires audio != [] && rate > 0
    ensures var events := [Audio(audio, |audio|, stamp), Flushed, Record];
      && SplitRunnable(Split(INITIAL, None), events, rate)
      && var s := SplitRun(Split(INITIAL, None), events, rate);
         s == Split(Queues([], [AecInfo(stamp, |audio|)], EMPTY_INFO, 0), None) && !Conserved(s.q, None)
  {
    var info := AecInfo(stamp, |audio|);
    var e0, e1, e2 := Audio(audio, |audio|, stamp), Flushed, Record;
    assert [e0, e1, e2][1..] == [e1, e2] && [e1, e2][1..] == [e2] && [e2][1..] == [];
    var s1 := SplitStep(Split(INITIAL, None), e0, rate);
    var s2 := SplitStep(s1, e1, rate);
    var s3 := SplitStep(s2, e2, rate);
    assert SplitRun(s2, [e2], rate) == s3;
    assert SplitRun(s1, [e1, e2], rate) == s3;
    OneRecord(s3.q, info);
  }

  // ---------------------------------------------------------------- closing and reopening the output

  /** destroy_aec_reference_config, then init_aec_reference_config: new FIFOs and a cleared current
      record, but `read_write_diff_bytes` is left as it was. */
  function Reopen(q: Queues): Queues {
    Queues([], [], EMPTY_INFO, q.diff)
  }

  /** So reopening keeps the queues in step exactly when the counter happened to be zero. */
  lemma ReopenConservesExactly(q: Queues)
    ensures Conserved(Reopen(q), None) <==> q.diff == 0
  {
    ConservationInBytes(Reopen(q), None);
  }

  /** Any flush puts a half-open pair of queues back in step, whatever state it was in. */
  lemma FlushRestores(q: Queues)
    ensures Inv(Flush(q)) && Unread(Flush(q), None) == []
  {
    ConservationInBytes(Flush(q), None);
  }

  /** The counter is not always zero: it is not after part of any packet is read. */
  lemma ReopenAfterPartOfPacket(audio: seq<AudioByte>, n: nat, stamp: Timespec, rate: nat)
    requires 0 < n < |audio| && rate > 0
    ensures var events := [Packet(audio, |audio|, stamp), Reference(n)];
      && Runnable(INITIAL, events, rate)
      && !Conserved(Reopen(Run(INITIAL, events, rate)), None)
  {
    var e0, e1 := Packet(audio, |audio|, stamp), Reference(n);
    assert [e0, e1][1..] == [e1] && [e1][1..] == [];
    var q1 := Step(INITIAL, e0, rate);
    assert q1 == Queues(audio, [AecInfo(stamp, |audio|)], EMPTY_INFO, 0);
    var q2 := Step(q1, e1, rate);
    assert q2.diff == n - |audio|;
    assert Run(q1, [e1], rate) == q2;
    ReopenConservesExactly(q2);
  }
}
