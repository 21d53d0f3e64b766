/** The echo-cancelling device as specified, with one queue of described bytes in place of the two FIFOs
    and the counter, and the times that the device reports against those of the specification. */
module DeviceTimes {
  import opened Options
  import opened AecQueues
  import opened AecRuns
  import opened AecProcess
  import opened DeviceRuns

  /** The time that an event takes from get_spk_timestamp, if it reads. */
  function Reported(d: Device, rate: nat, e: DeviceEvent): seq<int>
    requires rate > 0 && ValidEvent(e)
  {
    match e
    case Process(call) => if Reads(d, call) then [ProcessAec(d, rate, call).spkTime] else []
    case EchoRead(need, arrivals) =>
      (match EchoReadOf(d, rate, need, arrivals).1 case None => [] case Some(read) => [read.1])
    case _ => []
  }

  function ReportedTimes(d: Device, rate: nat, events: seq<DeviceEvent>): seq<int>
    requires rate > 0 && ValidEvents(events)
    decreases |events|
  {
    if events == [] then []
    else Reported(d, rate, events[0]) + ReportedTimes(DeviceStep(d, rate, events[0]), rate, events[1..])
  }

  /** The device as specified: unread bytes, each described by the packet that delivered it. */
  datatype SpecDevice = SpecDevice(unread: seq<Tag>, spkRunning: bool, prevSpkRunning: bool, micInitialized: bool,
                                   spkInitialized: bool)

  function SpecDeliver(unread: seq<Tag>, writes: seq<Write>): seq<Tag>
    decreases |writes|
  {
    if writes == [] then unread
    else SpecDeliver(unread + PacketTags(AecInfo(writes[0].stamp, writes[0].accepted)), writes[1..])
  }

  /** Waiting for n bytes. */
  function SpecWait(unread: seq<Tag>, n: nat, arrivals: seq<seq<Write>>, waits: nat): (r: (bool, seq<Tag>))
    ensures r.0 ==> n <= |r.1|
    decreases waits
  {
    if |unread| >= n then (true, unread)
    else
      var more := if arrivals == [] then unread else SpecDeliver(unread, arrivals[0]);
      if waits == 0 then (false, more) else SpecWait(more, n, if arrivals == [] then [] else arrivals[1..], waits - 1)
  }

  /** A call on the specified device, and the first byte that it reads, if it reads. */
  function SpecProcess(s: SpecDevice, rate: nat, call: Call): (SpecDevice, seq<Option<Tag>>)
    requires rate > 0
  {
    if !s.micInitialized || !s.spkInitialized then (s, [])
    else if !s.spkRunning then (s.(prevSpkRunning := false), [])
    else
      var start := if s.prevSpkRunning then s.unread else [];
      var (enough, unread) := SpecWait(start, call.need, call.arrivals, MAX_READ_WAIT_TIME_MSEC);
      if start == [] || !enough then (s.(prevSpkRunning := true, unread := []), [])
      else
        var gone := Diverged(call.micTime, HeadTime(unread, rate)) || call.status == 0;
        (s.(prevSpkRunning := true, unread := if gone then [] else unread[call.need..]), [HeadOf(unread)])
  }

  function SpecEchoRead(s: SpecDevice, rate: nat, need: nat, arrivals: seq<seq<Write>>): (SpecDevice, seq<Option<Tag>>)
    requires rate > 0
  {
    if !s.spkRunning || !s.spkInitialized then (s, [])
    else
      var (enough, unread) := SpecWait(s.unread, need, arrivals, MAX_READ_WAIT_TIME_MSEC);
      if !enough then (s.(unread := unread), []) else (s.(unread := unread[need..]), [HeadOf(unread)])
  }

  function SpecDeviceStep(s: SpecDevice, rate: nat, e: DeviceEvent): (SpecDevice, seq<Option<Tag>>)
    requires rate > 0
  {
    match e
    case Written(w) =>
      (if s.spkInitialized then s.(unread := s.unread + PacketTags(AecInfo(w.stamp, w.accepted))) else s, [])
    case SpkRunning(on) => (s.(spkRunning := on), [])
    case OutputOpened => (s.(unread := [], spkRunning := s.spkRunning && !s.spkInitialized, spkInitialized := true), [])
    case OutputClosed =>
      (if s.spkInitialized then s.(unread := [], spkRunning := false, spkInitialized := false) else s, [])
    case MicOpened => (s.(unread := [], micInitialized := true), [])
    case MicClosed => (s.(micInitialized := false), [])
    case Process(call) => SpecProcess(s, rate, call)
    case EchoRead(need, arrivals) => SpecEchoRead(s, rate, need, arrivals)
  }

  /** The first bytes of the reads of a run. */
  function SpecHeads(s: SpecDevice, rate: nat, events: seq<DeviceEvent>): seq<Option<Tag>>
    requires rate > 0
    decreases |events|
  {
    if events == [] then []
    else SpecDeviceStep(s, rate, events[0]).1 + SpecHeads(SpecDeviceStep(s, rate, events[0]).0, rate, events[1..])
  }

  // ---------------------------------------------------------------- abstraction

  /** The two FIFOs are in step, and no record is empty. */
  ghost predicate InStep(q: Queues) {
    Inv(q) && NonEmptyRecords(q.ts)
  }

  /** The mark of an output that was opened or closed while a packet was half read: the counter was kept,
      and the record it belongs to was cleared. */
  predicate OutOfStep(q: Queues) {
    q.diff < 0 && q.last == EMPTY_INFO
  }

  /** Out of step, the records still describe the audio; it is the counter that is wrong. */
  ghost predicate Shifted(q: Queues) {
    OutOfStep(q) && NonEmptyRecords(q.ts) && SumBytes(q.ts) == |q.spk|
  }

  ghost predicate Coherent(q: Queues) {
    InStep(q) || Shifted(q)
  }

  /** The bytes that are queued, by the packets that delivered them. */
  function Queued(q: Queues): seq<Tag>
    requires Coherent(q)
  {
    if OutOfStep(q) then AllTags(q.ts) else Unread(q, None)
  }

  /** What every event keeps. */
  ghost predicate Settled(d: Device) {
    Coherent(d.q) && Consistent(d) && (!d.spkInitialized ==> d.q.last == EMPTY_INFO)
  }

  function Abstract(d: Device): SpecDevice
    requires Coherent(d.q)
  {
    SpecDevice(Queued(d.q), d.spkRunning, d.prevSpkRunning, d.micInitialized, d.spkInitialized)
  }

  /** The device as init_aec makes it, with no stream. */
  lemma InitialSettled()
    ensures Settled(Device(INITIAL, Absent, false, false, false, false))
  {
    InitialInv();
  }

  lemma InStepExactly(q: Queues)
    requires Coherent(q)
    ensures InStep(q) <==> !OutOfStep(q)
    ensures |Queued(q)| == |q.spk|
  {
    AllTagsLength(q.ts);
  }

  // ---------------------------------------------------------------- one event

  /** Every packet of the event leaves audio in the FIFO. */
  predicate NonEmptyEvent(e: DeviceEvent) {
    && (e.Written? ==> e.w.accepted > 0)
    && (e.Process? ==> NonEmptyArrivals(e.call.arrivals))
    && (e.EchoRead? ==> NonEmptyArrivals(e.arrivals))
  }

  /** The event reads reference audio while the queues are out of step, with no flush before. */
  predicate ReadsOutOfStep(d: Device, e: DeviceEvent)
    requires ValidEvent(e)
  {
    match e
    case Process(call) => d.prevSpkRunning && OutOfStep(d.q) && Reads(d, call)
    case EchoRead(need, arrivals) =>
      d.spkRunning && d.spkInitialized && OutOfStep(d.q) && Wait(d.q, need, arrivals, MAX_READ_WAIT_TIME_MSEC).0
    case _ => false
  }

  /** An output is not opened or closed while a packet is half read. */
  predicate CleanSwitch(d: Device, e: DeviceEvent) {
    e.OutputOpened? || (e.OutputClosed? && d.spkInitialized) ==> d.q.diff == 0
  }

  lemma PacketQueued(q: Queues, w: Write)
    requires Coherent(q) && w.Valid() && w.accepted > 0
    ensures var q' := WritePacket(q, w.audio, w.accepted, w.stamp);
      && Coherent(q') && q'.last == q.last && q'.diff == q.diff
      && Queued(q') == Queued(q) + PacketTags(AecInfo(w.stamp, w.accepted))
  {
    InStepExactly(q);
    if OutOfStep(q) {
      ShiftedPacket(q, w, AecInfo(w.stamp, w.accepted));
    } else {
      PacketAppends(q, w.audio, w.accepted, w.stamp);
    }
  }

  lemma ShiftedPacket(q: Queues, w: Write, info: AecInfo)
    requires Shifted(q) && w.Valid() && w.accepted > 0 && info == AecInfo(w.stamp, w.accepted)
    ensures var q' := WritePacket(q, w.audio, w.accepted, w.stamp);
      Shifted(q') && AllTags(q'.ts) == AllTags(q.ts) + PacketTags(info)
  {
    AllTagsConcat(q.ts, [info]);
    SumBytesConcat(q.ts, [info]);
    assert AllTags([info]) == PacketTags(info) + AllTags([info][1..]);
    assert SumBytes([info]) == info.bytes + SumBytes([info][1..]);
  }

  lemma {:induction false} DeliverQueued(q: Queues, writes: seq<Write>)
    requires Coherent(q) && ValidWrites(writes) && NonEmptyWrites(writes)
    ensures var q' := Deliver(q, writes);
      Coherent(q') && q'.last == q.last && q'.diff == q.diff && Queued(q') == SpecDeliver(Queued(q), writes)
    decreases |writes|
  {
    if writes != [] {
      PacketQueued(q, writes[0]);
      DeliverQueued(WritePacket(q, writes[0].audio, writes[0].accepted, writes[0].stamp), writes[1..]);
    }
  }

  /** Waiting for audio is waiting for its descriptions. */
  lemma {:induction false} WaitQueued(q: Queues, need: nat, arrivals: seq<seq<Write>>, waits: nat)
    requires Coherent(q) && ValidArrivals(arrivals) && NonEmptyArrivals(arrivals)
    ensures var (enough, q') := Wait(q, need, arrivals, waits);
      && Coherent(q') && q'.last == q.last && q'.diff == q.diff
      && (enough, Queued(q')) == SpecWait(Queued(q), need, arrivals, waits)
    decreases waits
  {
    InStepExactly(q);
    if |q.spk| < need {
      if arrivals != [] { DeliverQueued(q, arrivals[0]); }
      if waits > 0 {
        WaitQueued(if arrivals == [] then q else Deliver(q, arrivals[0]), need,
                   if arrivals == [] then [] else arrivals[1..], waits - 1);
      }
    }
  }

  lemma FlushInStep(q: Queues)
    ensures InStep(Flush(q)) && Queued(Flush(q)) == []
  {
    FlushRestores(q);
  }

  /** A call that sees the speaker run and finds enough audio, in step. */
  lemma ReadingSimulates(d: Device, rate: nat, call: Call, q: Queues)
    requires rate > 0 && ValidArrivals(call.arrivals) && Coherent(d.q) && Reads(d, call) && InStep(q)
    requires Polled(d, call) == (true, q)
    ensures var left := if Diverged(call.micTime, HeadTime(Queued(q), rate)) || call.status == 0 then []
                        else Queued(q)[call.need..];
      var d' := ProcessAec(d, rate, call).device;
      && InStep(d'.q) && Abstract(d') == Abstract(d).(prevSpkRunning := true, unread := left)
      && Reported(d, rate, Process(call)) == [HeadTime(Queued(q), rate)]
  {
    ReadKeeps(q, call.need, rate);
    FlushInStep(ReadReference(q, call.need, rate).1);
  }

  /** A call that takes no audio. */
  lemma SkippingSimulates(d: Device, rate: nat, call: Call)
    requires rate > 0 && ValidArrivals(call.arrivals) && Coherent(d.q) && !Reads(d, call)
    ensures var d' := ProcessAec(d, rate, call).device;
      && Coherent(d'.q) && (OutOfStep(d'.q) ==> OutOfStep(d.q)) && Reported(d, rate, Process(call)) == []
      && Abstract(d') == (if !PastInitChecks(d) then Abstract(d)
                          else if !d.spkRunning then Abstract(d).(prevSpkRunning := false)
                          else Abstract(d).(prevSpkRunning := true, unread := []))
  {
    FlushInStep(d.q);
    FlushInStep(Polled(d, call).1);
    InStepExactly(d.q);
  }

  lemma StartingQueued(d: Device)
    requires Coherent(d.q)
    ensures Coherent(Starting(d)) && Queued(Starting(d)) == (if d.prevSpkRunning then Queued(d.q) else [])
    ensures Starting(d).spk == [] <==> Queued(Starting(d)) == []
    ensures OutOfStep(Starting(d)) <==> d.prevSpkRunning && OutOfStep(d.q)
  {
    FlushInStep(d.q);
    InStepExactly(Starting(d));
  }

  lemma ProcessSimulates(d: Device, rate: nat, call: Call)
    requires rate > 0 && ValidArrivals(call.arrivals) && NonEmptyArrivals(call.arrivals) && Coherent(d.q)
    requires !ReadsOutOfStep(d, Process(call))
    ensures var d' := ProcessAec(d, rate, call).device;
      && Coherent(d'.q) && (OutOfStep(d'.q) ==> OutOfStep(d.q))
      && SpecProcess(Abstract(d), rate, call).0 == Abstract(d')
      && Timed(Reported(d, rate, Process(call)), SpecProcess(Abstract(d), rate, call).1, rate)
  {
    StartingQueued(d);
    WaitQueued(Starting(d), call.need, call.arrivals, MAX_READ_WAIT_TIME_MSEC);
    InStepExactly(Polled(d, call).1);
    if Reads(d, call) {
      ReadingSimulates(d, rate, call, Polled(d, call).1);
      InStepExactly(ProcessAec(d, rate, call).device.q);
    } else {
      SkippingSimulates(d, rate, call);
    }
  }

  lemma EchoReadSimulates(d: Device, rate: nat, need: nat, arrivals: seq<seq<Write>>)
    requires rate > 0 && ValidArrivals(arrivals) && NonEmptyArrivals(arrivals) && Coherent(d.q)
    requires !ReadsOutOfStep(d, EchoRead(need, arrivals))
    ensures var d' := EchoReadOf(d, rate, need, arrivals).0;
      && Coherent(d'.q) && (OutOfStep(d'.q) ==> OutOfStep(d.q))
      && SpecEchoRead(Abstract(d), rate, need, arrivals).0 == Abstract(d')
      && Timed(Reported(d, rate, EchoRead(need, arrivals)), SpecEchoRead(Abstract(d), rate, need, arrivals).1, rate)
  {
    WaitQueued(d.q, need, arrivals, MAX_READ_WAIT_TIME_MSEC);
    var (enough, q) := Wait(d.q, need, arrivals, MAX_READ_WAIT_TIME_MSEC);
    InStepExactly(q);
    if enough && InStep(q) {
      ReadKeeps(q, need, rate);
      InStepExactly(ReadReference(q, need, rate).1);
    }
  }

  /** Opening or closing an output leaves the FIFOs in step if and only if the counter was zero. */
  lemma SwitchInStepExactly(d: Device)
    requires InStep(d.q)
    ensures InStep(OpenOutput(d).q) <==> d.q.diff == 0
    ensures d.spkInitialized ==> (InStep(CloseOutput(d).q) <==> d.q.diff == 0)
  {
    ConservationInBytes(OpenOutput(d).q, None);
    ConservationInBytes(CloseOutput(d).q, None);
  }

  lemma EmptyQueues(q: Queues)
    requires q == Queues([], [], EMPTY_INFO, q.diff) && q.diff <= 0
    ensures Coherent(q) && Queued(q) == [] && (OutOfStep(q) <==> q.diff != 0)
  {
    ConservationInBytes(q, None);
  }

  /** With the counter at zero or not, it leaves them empty. */
  lemma SwitchSettles(d: Device)
    requires Settled(d)
    ensures Settled(OpenOutput(d)) && Queued(OpenOutput(d).q) == []
    ensures Settled(CloseOutput(d)) && (d.spkInitialized ==> Queued(CloseOutput(d).q) == [])
    ensures d.q.diff == 0 ==> !OutOfStep(OpenOutput(d).q) && !OutOfStep(CloseOutput(d).q)
  {
    EmptyQueues(OpenOutput(d).q);
    if d.spkInitialized { EmptyQueues(CloseOutput(d).q); }
  }

  lemma OtherSimulates(d: Device, rate: nat, e: DeviceEvent)
    requires rate > 0 && ValidEvent(e) && NonEmptyEvent(e) && Settled(d) && !e.Process? && !e.EchoRead?
    ensures var d' := DeviceStep(d, rate, e);
      && Settled(d') && SpecDeviceStep(Abstract(d), rate, e) == (Abstract(d'), []) && Reported(d, rate, e) == []
      && (OutOfStep(d'.q) && CleanSwitch(d, e) ==> OutOfStep(d.q))
  {
    StepKeepsConsistent(d, rate, e);
    match e
    case Written(w) => PacketQueued(d.q, w);
    case OutputOpened => SwitchSettles(d);
    case OutputClosed => SwitchSettles(d);
    case MicOpened => FlushInStep(d.q);
    case _ =>
  }

  /** Every event that does not read out of step does to the queues and the counter what the specification
      says, and reports the time of the byte that the specification reads first. */
  lemma StepSimulates(d: Device, rate: nat, e: DeviceEvent)
    requires rate > 0 && ValidEvent(e) && NonEmptyEvent(e) && Settled(d) && !ReadsOutOfStep(d, e)
    ensures var d' := DeviceStep(d, rate, e);
      && Settled(d') && SpecDeviceStep(Abstract(d), rate, e).0 == Abstract(d')
      && Timed(Reported(d, rate, e), SpecDeviceStep(Abstract(d), rate, e).1, rate)
      && (OutOfStep(d'.q) && CleanSwitch(d, e) ==> OutOfStep(d.q))
  {
    StepKeepsConsistent(d, rate, e);
    match e
    case Process(call) => ProcessSimulates(d, rate, call);
    case EchoRead(need, arrivals) => EchoReadSimulates(d, rate, need, arrivals);
    case _ => OtherSimulates(d, rate, e);
  }

  // ---------------------------------------------------------------- reads out of step

  lemma BeforeZero(n: int, m: int, d: int)
    requires n < 0 < d && m > 0
    ensures n * m / d < 0
  {
    assert n * m <= n * 1;
  }

  /** A read out of step places its first byte before the start of a packet stamped 0. */
  lemma ShiftedTime(q: Queues, need: nat, rate: nat)
    requires OutOfStep(q) && need <= |q.spk| && rate > 0
    ensures ReadReference(q, need, rate).0 < 0
  {
    BeforeZero(q.diff, 1_000_000, rate);
  }

  /** No byte has such a time. */
  lemma NotTimed(time: int, unread: seq<Tag>, rate: nat)
    requires rate > 0 && time < 0
    ensures !TimedAs(time, HeadOf(unread), rate)
  {
    if TimedAs(time, HeadOf(unread), rate) { TimedOnce(time, unread, rate); }
  }

  lemma CallOutOfStep(d: Device, rate: nat, call: Call, q: Queues)
    requires rate > 0 && ValidArrivals(call.arrivals) && NonEmptyArrivals(call.arrivals) && Coherent(d.q)
    requires ReadsOutOfStep(d, Process(call)) && Polled(d, call) == (true, q)
    ensures Reported(d, rate, Process(call)) == [ReadReference(q, call.need, rate).0]
    ensures Coherent(q) && OutOfStep(q) && SpecProcess(Abstract(d), rate, call).1 == [HeadOf(Queued(q))]
  {
    StartingQueued(d);
    WaitQueued(Starting(d), call.need, call.arrivals, MAX_READ_WAIT_TIME_MSEC);
  }

  lemma EchoOutOfStep(d: Device, rate: nat, need: nat, arrivals: seq<seq<Write>>, q: Queues)
    requires rate > 0 && ValidArrivals(arrivals) && NonEmptyArrivals(arrivals) && Coherent(d.q)
    requires ReadsOutOfStep(d, EchoRead(need, arrivals))
    requires Wait(d.q, need, arrivals, MAX_READ_WAIT_TIME_MSEC) == (true, q)
    ensures Reported(d, rate, EchoRead(need, arrivals)) == [ReadReference(q, need, rate).0]
    ensures Coherent(q) && OutOfStep(q)
    ensures SpecEchoRead(Abstract(d), rate, need, arrivals).1 == [HeadOf(Queued(q))]
  {
    WaitQueued(d.q, need, arrivals, MAX_READ_WAIT_TIME_MSEC);
  }

  /** The specification reads as well, but not a byte of that time. */
  lemma ReadsOutOfStepExactly(d: Device, rate: nat, e: DeviceEvent)
    requires rate > 0 && ValidEvent(e) && NonEmptyEvent(e) && Settled(d) && ReadsOutOfStep(d, e)
    ensures |Reported(d, rate, e)| == 1 == |SpecDeviceStep(Abstract(d), rate, e).1|
    ensures Reported(d, rate, e)[0] < 0
    ensures !TimedAs(Reported(d, rate, e)[0], SpecDeviceStep(Abstract(d), rate, e).1[0], rate)
  {
    match e
    case Process(call) =>
      var q := Polled(d, call).1;
      CallOutOfStep(d, rate, call, q);
      ShiftedTime(q, call.need, rate);
      NotTimed(ReadReference(q, call.need, rate).0, Queued(q), rate);
    case EchoRead(need, arrivals) =>
      var q := Wait(d.q, need, arrivals, MAX_READ_WAIT_TIME_MSEC).1;
      EchoOutOfStep(d, rate, need, arrivals, q);
      ShiftedTime(q, need, rate);
      NotTimed(ReadReference(q, need, rate).0, Queued(q), rate);
    case _ =>
  }

  // ---------------------------------------------------------------- every run

  predicate NonEmptyDeviceEvents(events: seq<DeviceEvent>) {
    forall i :: 0 <= i < |events| ==> NonEmptyEvent(events[i])
  }

  /** Every event of the run that reads starts in step or flushes first. */
  predicate ReadsInStep(d: Device, rate: nat, events: seq<DeviceEvent>)
    requires rate > 0 && ValidEvents(events)
    decreases |events|
  {
    events == [] || (!ReadsOutOfStep(d, events[0]) && ReadsInStep(DeviceStep(d, rate, events[0]), rate, events[1..]))
  }

  /** Exact times on the device: over any orderly run the times that the canceller and the readers of the
      echo reference are given are those of the bytes that the specification, which knows no counter,
      reads first, if and only if every event that reads starts in step or flushes first. */
  lemma {:induction false} TimesAreExactly(d: Device, rate: nat, events: seq<DeviceEvent>)
    requires rate > 0 && Orderly(d, rate, events) && NonEmptyDeviceEvents(events) && Settled(d)
    ensures Timed(ReportedTimes(d, rate, events), SpecHeads(Abstract(d), rate, events), rate)
      <==> ReadsInStep(d, rate, events)
    decreases |events|
  {
    if events != [] {
      var e := events[0];
      if ReadsOutOfStep(d, e) {
        ReadsOutOfStepExactly(d, rate, e);
        assert ReportedTimes(d, rate, events)[0] == Reported(d, rate, e)[0];
        assert SpecHeads(Abstract(d), rate, events)[0] == SpecDeviceStep(Abstract(d), rate, e).1[0];
      } else {
        var d' := DeviceStep(d, rate, e);
        StepSimulates(d, rate, e);
        TimesAreExactly(d', rate, events[1..]);
        TimedConcat(Reported(d, rate, e), SpecDeviceStep(Abstract(d), rate, e).1,
                    ReportedTimes(d', rate, events[1..]), SpecHeads(Abstract(d'), rate, events[1..]), rate);
      }
    }
  }

  predicate CleanSwitches(d: Device, rate: nat, events: seq<DeviceEvent>)
    requires rate > 0 && ValidEvents(events)
    decreases |events|
  {
    events == [] || (CleanSwitch(d, events[0]) && CleanSwitches(DeviceStep(d, rate, events[0]), rate, events[1..]))
  }

  /** In particular they are exact if no output is opened or closed while a packet is half read. */
  lemma {:induction false} CleanSwitchesSuffice(d: Device, rate: nat, events: seq<DeviceEvent>)
    requires rate > 0 && Orderly(d, rate, events) && NonEmptyDeviceEvents(events) && Settled(d)
    requires InStep(d.q) && CleanSwitches(d, rate, events)
    ensures ReadsInStep(d, rate, events)
    decreases |events|
  {
    if events != [] {
      InStepExactly(d.q);
      StepSimulates(d, rate, events[0]);
      InStepExactly(DeviceStep(d, rate, events[0]).q);
      CleanSwitchesSuffice(DeviceStep(d, rate, events[0]), rate, events[1..]);
    }
  }

  /** The run that shows one that is not: an output is opened, a packet written and part of it read. */
  function OpenWriteRead(w: Write, n: nat): (events: seq<DeviceEvent>)
    ensures |events| == 4 && events[0] == OutputOpened && events[1..] == [SpkRunning(true), Written(w), EchoRead(n, [])]
    ensures events[1..][0] == SpkRunning(true) && events[1..][1..] == [Written(w), EchoRead(n, [])]
    ensures events[1..][1..][1..] == [EchoRead(n, [])] && events[1..][1..][1..][1..] == []
  {
    [OutputOpened, SpkRunning(true), Written(w), EchoRead(n, [])]
  }

  lemma EnoughAfterPacket(q: Queues, w: Write, n: nat, q': Queues)
    requires w.Valid() && n <= w.accepted && q' == WritePacket(q, w.audio, w.accepted, w.stamp)
    ensures Wait(q', n, [], MAX_READ_WAIT_TIME_MSEC).0 && (OutOfStep(q') <==> OutOfStep(q))
  {
  }

  lemma ReadsOut(d: Device, rate: nat, n: nat, events: seq<DeviceEvent>)
    requires rate > 0 && events == [EchoRead(n, [])] && Consistent(d) && d.spkInitialized && d.spkRunning
    requires OutOfStep(d.q) && Wait(d.q, n, [], MAX_READ_WAIT_TIME_MSEC).0
    ensures ValidEvents(events) && !RunStrays(d, rate, events) && !ReadsInStep(d, rate, events)
  {
    assert ReadsOutOfStep(d, events[0]);
    assert events[1..] == [];
  }

  lemma ReadsOutAfterPacket(d: Device, rate: nat, w: Write, n: nat, events: seq<DeviceEvent>)
    requires rate > 0 && w.Valid() && 0 < n <= w.accepted && events == [Written(w), EchoRead(n, [])]
    requires Consistent(d) && d.spkInitialized && d.spkRunning && OutOfStep(d.q)
    ensures Orderly(d, rate, events) && !ReadsInStep(d, rate, events)
  {
    var d' := DeviceStep(d, rate, Written(w));
    EnoughAfterPacket(d.q, w, n, d'.q);
    assert events[1..] == [EchoRead(n, [])];
    ReadsOut(d', rate, n, events[1..]);
  }

  /** From any device in the middle of a packet, the time of that read is wrong. */
  lemma UncleanSwitchMisdates(d: Device, rate: nat, w: Write, n: nat)
    requires rate > 0 && w.Valid() && 0 < n <= w.accepted && Settled(d) && d.q.diff != 0
    ensures Orderly(d, rate, OpenWriteRead(w, n)) && !ReadsInStep(d, rate, OpenWriteRead(w, n))
    ensures !Timed(ReportedTimes(d, rate, OpenWriteRead(w, n)), SpecHeads(Abstract(d), rate, OpenWriteRead(w, n)), rate)
  {
    var events := OpenWriteRead(w, n);
    var d1 := DeviceStep(d, rate, OutputOpened);
    var d2 := DeviceStep(d1, rate, SpkRunning(true));
    SwitchSettles(d);
    ReadsOutAfterPacket(d2, rate, w, n, events[1..][1..]);
    assert !RunStrays(d1, rate, events[1..]);
    assert !RunStrays(d, rate, events);
    assert !ReadsInStep(d1, rate, events[1..]);
    TimesAreExactly(d, rate, events);
  }
}
