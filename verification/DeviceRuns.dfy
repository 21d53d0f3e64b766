/** Runs of the echo-cancelling device: packets, playback starting and stopping, the output and the
    microphone opened and closed, buffers processed, and the reference read as a stream of its own.  Which
    runs use FIFOs that have been released, and which audio is used as reference. */
module DeviceRuns {
  import opened Options
  import opened AecQueues
  import opened AecRuns
  import opened AecProcess

  /** What happens to the device. */
  datatype DeviceEvent =
    | Written(w: Write)
    | SpkRunning(on: bool)
    | OutputOpened
    | OutputClosed
    | MicOpened
    | MicClosed
    | Process(call: Call)
    | EchoRead(need: nat, arrivals: seq<seq<Write>>)

  predicate ValidEvent(e: DeviceEvent) {
    && (e.Written? ==> e.w.Valid())
    && (e.Process? ==> ValidArrivals(e.call.arrivals))
    && (e.EchoRead? ==> ValidArrivals(e.arrivals))
  }

  predicate ValidEvents(events: seq<DeviceEvent>) {
    forall i :: 0 <= i < |events| ==> ValidEvent(events[i])
  }

  /** init_aec_reference_config, with the same settings: an output that is still open is closed first;
      the FIFOs are new, and the counter is left as it was. */
  function OpenOutput(d: Device): Device {
    var closed := CloseOutput(d);
    closed.(q := closed.q.(spk := [], ts := []), fifos := Live, spkInitialized := true)
  }

  /** destroy_aec_reference_config */
  function CloseOutput(d: Device): Device {
    if !d.spkInitialized then d
    else d.(q := Reopen(d.q), fifos := Released, spkRunning := false, spkInitialized := false)
  }

  /** in_read of the echo reference: silence while the speaker is not running, else
      get_reference_samples, on the FIFO as it is.  The result is the audio taken, if any, and its time. */
  function EchoReadOf(d: Device, rate: nat, need: nat, arrivals: seq<seq<Write>>)
    : (r: (Device, Option<(seq<AudioByte>, int)>))
    requires rate > 0 && ValidArrivals(arrivals)
  {
    if !d.spkRunning || !d.spkInitialized then (d, None)
    else
      var (enough, q) := Wait(d.q, need, arrivals, MAX_READ_WAIT_TIME_MSEC);
      if !enough then (d.(q := q), None)
      else (d.(q := ReadReference(q, need, rate).1), Some((q.spk[..need], ReadReference(q, need, rate).0)))
  }

  /** A packet that finds no FIFO is not modelled further; Strays says when there is one. */
  function DeviceStep(d: Device, rate: nat, e: DeviceEvent): Device
    requires rate > 0 && ValidEvent(e)
  {
    match e
    case Written(w) => if d.spkInitialized then d.(q := WritePacket(d.q, w.audio, w.accepted, w.stamp)) else d
    case SpkRunning(on) => d.(spkRunning := on)
    case OutputOpened => OpenOutput(d)
    case OutputClosed => CloseOutput(d)
    case MicOpened => d.(q := Flush(d.q), micInitialized := true)
    case MicClosed => d.(micInitialized := false)
    case Process(call) => ProcessAec(d, rate, call).device
    case EchoRead(need, arrivals) => EchoReadOf(d, rate, need, arrivals).0
  }

  function DeviceRun(d: Device, rate: nat, events: seq<DeviceEvent>): Device
    requires rate > 0 && ValidEvents(events)
    decreases |events|
  {
    if events == [] then d else DeviceRun(DeviceStep(d, rate, events[0]), rate, events[1..])
  }

  // ---------------------------------------------------------------- the life of the FIFOs

  /** The event calls a function of the FIFOs.  Releasing them counts; the flush in init_aec_mic_config
      looks only at whether the pointers are NULL, and a packet is written without a look. */
  predicate Reaches(d: Device, e: DeviceEvent) {
    match e
    case Written(_) => true
    case OutputOpened => d.spkInitialized
    case OutputClosed => d.spkInitialized
    case MicOpened => d.fifos != Absent
    case Process(_) => PastInitChecks(d) && d.spkRunning
    case EchoRead(_, _) => d.spkRunning && d.spkInitialized
    case _ => false
  }

  /** It does while they are not there. */
  predicate Strays(d: Device, e: DeviceEvent) {
    Reaches(d, e) && d.fifos != Live
  }

  /** The reference is set up exactly while the FIFOs are there. */
  predicate Consistent(d: Device) {
    d.spkInitialized <==> d.fifos == Live
  }

  /** The FIFOs after an event, which depend on the opening and closing of the output alone. */
  function NextFifos(f: Fifos, e: DeviceEvent): Fifos {
    match e
    case OutputOpened => Live
    case OutputClosed => if f == Live then Released else f
    case _ => f
  }

  function FifosAfter(f: Fifos, events: seq<DeviceEvent>): Fifos {
    if events == [] then f else NextFifos(FifosAfter(f, events[..|events| - 1]), events[|events| - 1])
  }

  lemma StepKeepsConsistent(d: Device, rate: nat, e: DeviceEvent)
    requires rate > 0 && ValidEvent(e) && Consistent(d)
    ensures Consistent(DeviceStep(d, rate, e)) && DeviceStep(d, rate, e).fifos == NextFifos(d.fifos, e)
  {
  }

  /** Only two kinds of event can stray: a packet while the output is not open, and opening the microphone
      after the output was closed.  No read, no buffer processed and no switch of the output does. */
  lemma StraysExactly(d: Device, e: DeviceEvent)
    requires Consistent(d)
    ensures Strays(d, e) <==> StraysWith(d.fifos, e)
  {
  }

  predicate StraysWith(f: Fifos, e: DeviceEvent) {
    (e.Written? && f != Live) || (e.MicOpened? && f == Released)
  }

  predicate RunStrays(d: Device, rate: nat, events: seq<DeviceEvent>)
    requires rate > 0 && ValidEvents(events)
    decreases |events|
  {
    events != [] && (Strays(d, events[0]) || RunStrays(DeviceStep(d, rate, events[0]), rate, events[1..]))
  }

  /** The valid runs that do not stray. */
  predicate Orderly(d: Device, rate: nat, events: seq<DeviceEvent>)
    requires rate > 0
  {
    ValidEvents(events) && !RunStrays(d, rate, events)
  }

  lemma {:induction false} FifosFromFirst(f: Fifos, events: seq<DeviceEvent>)
    requires events != []
    ensures FifosAfter(f, events) == FifosAfter(NextFifos(f, events[0]), events[1..])
  {
    var last := |events| - 1;
    if last == 0 {
      assert events[..0] == [];
    } else {
      assert events[..last][1..] == events[1..][..last - 1];
      FifosFromFirst(f, events[..last]);
    }
  }

  /** Event i of a run strays, by the openings and closings of the output before it. */
  predicate StraysAt(f: Fifos, events: seq<DeviceEvent>, i: nat)
    requires i < |events|
  {
    StraysWith(FifosAfter(f, events[..i]), events[i])
  }

  lemma StraysLater(f: Fifos, events: seq<DeviceEvent>, i: nat)
    requires 0 < i < |events|
    ensures StraysAt(f, events, i) <==> StraysAt(NextFifos(f, events[0]), events[1..], i - 1)
  {
    FifosFromFirst(f, events[..i]);
    assert events[..i][1..] == events[1..][..i - 1];
  }

  /** A run strays if and only if, somewhere in it, a packet is written while the output is not open, or
      the microphone is opened after the output was closed and before it is opened again. */
  lemma {:induction false} RunStraysExactly(d: Device, rate: nat, events: seq<DeviceEvent>)
    requires rate > 0 && ValidEvents(events) && Consistent(d)
    ensures RunStrays(d, rate, events) <==> exists i :: 0 <= i < |events| && StraysAt(d.fifos, events, i)
    decreases |events|
  {
    if events != [] {
      var d', rest := DeviceStep(d, rate, events[0]), events[1..];
      StepKeepsConsistent(d, rate, events[0]);
      StraysExactly(d, events[0]);
      assert events[..0] == [];
      assert StraysAt(d.fifos, events, 0) <==> Strays(d, events[0]);
      RunStraysExactly(d', rate, rest);
      if i :| 0 <= i < |events| && StraysAt(d.fifos, events, i) {
        if i > 0 { StraysLater(d.fifos, events, i); }
      }
      if i :| 0 <= i < |rest| && StraysAt(d'.fifos, rest, i) {
        StraysLater(d.fifos, events, i + 1);
      }
    }
  }

  /** Event j closes the output that was opened before it, and no later event opens one. */
  predicate ClosedLast(events: seq<DeviceEvent>, j: nat) {
    && j < |events| && events[j].OutputClosed?
    && (exists k :: 0 <= k < j && events[k].OutputOpened?)
    && (forall k :: j < k < |events| ==> !events[k].OutputOpened?)
  }

  predicate EverOpened(events: seq<DeviceEvent>) {
    exists k :: 0 <= k < |events| && events[k].OutputOpened?
  }

  /** From the start, the FIFOs are released ones if and only if some output was opened, one was closed
      after that, and none was opened since. */
  lemma {:induction false} ReleasedExactly(events: seq<DeviceEvent>)
    ensures FifosAfter(Absent, events) == Released <==> exists j :: 0 <= j < |events| && ClosedLast(events, j)
    ensures FifosAfter(Absent, events) == Absent <==> !EverOpened(events)
  {
    if events != [] {
      var last := |events| - 1;
      var before := events[..last];
      ReleasedExactly(before);
      assert EverOpened(events) <==> EverOpened(before) || events[last].OutputOpened?;
      assert ClosedLast(events, last) <==> events[last].OutputClosed? && EverOpened(before);
      forall j | 0 <= j < last
        ensures ClosedLast(events, j) <==> ClosedLast(before, j) && !events[last].OutputOpened?
      {
        assert ClosedLast(events, j) ==> !events[last].OutputOpened?;
        assert forall k :: 0 <= k < last ==> before[k] == events[k];
      }
    }
  }

  // ---------------------------------------------------------------- no stale reference

  /** All that a run's calls take from the speaker FIFO as reference. */
  function References(d: Device, rate: nat, events: seq<DeviceEvent>): seq<AudioByte>
    requires rate > 0 && ValidEvents(events)
    decreases |events|
  {
    if events == [] then []
    else (if events[0].Process? then ProcessAec(d, rate, events[0].call).reference else [])
         + References(DeviceStep(d, rate, events[0]), rate, events[1..])
  }

  /** Every byte of the audio is one of those the reader may see. */
  ghost predicate All(audio: seq<AudioByte>, recent: AudioByte -> bool) {
    forall i :: 0 <= i < |audio| ==> recent(audio[i])
  }

  ghost predicate AllWrites(writes: seq<Write>, recent: AudioByte -> bool) {
    forall i :: 0 <= i < |writes| ==> All(writes[i].audio, recent)
  }

  ghost predicate AllArrivals(arrivals: seq<seq<Write>>, recent: AudioByte -> bool) {
    forall i :: 0 <= i < |arrivals| ==> AllWrites(arrivals[i], recent)
  }

  ghost predicate WritesOnly(events: seq<DeviceEvent>, recent: AudioByte -> bool) {
    forall i :: 0 <= i < |events| ==>
      && (events[i].Written? ==> All(events[i].w.audio, recent))
      && (events[i].Process? ==> AllArrivals(events[i].call.arrivals, recent))
      && (events[i].EchoRead? ==> AllArrivals(events[i].arrivals, recent))
  }

  /** The device will not use what it holds: the next call that uses the queues flushes them first,
      or they are empty. */
  predicate CleanSlate(d: Device) {
    !d.prevSpkRunning || d.q.spk == []
  }

  /** Nothing in the queue that a call could use before a flush is older. */
  ghost predicate Unstained(d: Device, recent: AudioByte -> bool) {
    d.prevSpkRunning && d.micInitialized && d.spkInitialized ==> All(d.q.spk, recent)
  }

  /** The same for a read of the echo reference, before which there is no flush. */
  ghost predicate UnstainedForEcho(d: Device, recent: AudioByte -> bool) {
    d.spkInitialized ==> All(d.q.spk, recent)
  }

  /** What may follow: an orderly run whose packets hold only bytes that `recent` accepts. */
  ghost predicate LaterRun(d: Device, rate: nat, events: seq<DeviceEvent>, recent: AudioByte -> bool)
    requires rate > 0
  {
    Orderly(d, rate, events) && WritesOnly(events, recent)
  }

  /** All that the reads of a run take as echo reference. */
  function EchoReferences(d: Device, rate: nat, events: seq<DeviceEvent>): seq<AudioByte>
    requires rate > 0 && ValidEvents(events)
    decreases |events|
  {
    if events == [] then []
    else EchoTaken(d, rate, events[0]) + EchoReferences(DeviceStep(d, rate, events[0]), rate, events[1..])
  }

  function EchoTaken(d: Device, rate: nat, e: DeviceEvent): seq<AudioByte>
    requires rate > 0 && ValidEvent(e)
  {
    if !e.EchoRead? then []
    else match EchoReadOf(d, rate, e.need, e.arrivals).1 { case None => [] case Some(read) => read.0 }
  }

  lemma {:induction false} DeliverFresh(q: Queues, writes: seq<Write>, recent: AudioByte -> bool)
    requires All(q.spk, recent) && ValidWrites(writes) && AllWrites(writes, recent)
    ensures All(Deliver(q, writes).spk, recent)
    decreases |writes|
  {
    if writes != [] {
      var w := writes[0];
      DeliverFresh(WritePacket(q, w.audio, w.accepted, w.stamp), writes[1..], recent);
    }
  }

  lemma {:induction false} WaitFresh(q: Queues, need: nat, arrivals: seq<seq<Write>>, waits: nat,
                                     recent: AudioByte -> bool)
    requires All(q.spk, recent) && ValidArrivals(arrivals) && AllArrivals(arrivals, recent)
    ensures All(Wait(q, need, arrivals, waits).1.spk, recent)
    decreases waits
  {
    if |q.spk| < need {
      if arrivals != [] { DeliverFresh(q, arrivals[0], recent); }
      if waits > 0 {
        WaitFresh(if arrivals == [] then q else Deliver(q, arrivals[0]), need,
                  if arrivals == [] then [] else arrivals[1..], waits - 1, recent);
      }
    }
  }

  lemma StepFresh(d: Device, rate: nat, e: DeviceEvent, recent: AudioByte -> bool)
    requires rate > 0 && ValidEvent(e) && Unstained(d, recent) && WritesOnly([e], recent)
    ensures Unstained(DeviceStep(d, rate, e), recent)
    ensures e.Process? ==> All(ProcessAec(d, rate, e.call).reference, recent)
  {
    assert [e][0] == e;
    match e
    case Process(call) =>
      if PastInitChecks(d) { WaitFresh(Starting(d), call.need, call.arrivals, MAX_READ_WAIT_TIME_MSEC, recent); }
    case EchoRead(need, arrivals) =>
      if d.prevSpkRunning && PastInitChecks(d) { WaitFresh(d.q, need, arrivals, MAX_READ_WAIT_TIME_MSEC, recent); }
    case _ =>
  }

  lemma {:induction false} RunFresh(d: Device, rate: nat, events: seq<DeviceEvent>, recent: AudioByte -> bool)
    requires rate > 0 && Unstained(d, recent) && LaterRun(d, rate, events, recent)
    ensures All(References(d, rate, events), recent)
    decreases |events|
  {
    if events != [] {
      assert [events[0]][0] == events[0];
      StepFresh(d, rate, events[0], recent);
      RunFresh(DeviceStep(d, rate, events[0]), rate, events[1..], recent);
    }
  }

  lemma EchoStepFresh(d: Device, rate: nat, e: DeviceEvent, recent: AudioByte -> bool)
    requires rate > 0 && ValidEvent(e) && UnstainedForEcho(d, recent) && WritesOnly([e], recent)
    ensures UnstainedForEcho(DeviceStep(d, rate, e), recent)
    ensures All(EchoTaken(d, rate, e), recent)
  {
    assert [e][0] == e;
    match e
    case Process(call) =>
      if PastInitChecks(d) { WaitFresh(Starting(d), call.need, call.arrivals, MAX_READ_WAIT_TIME_MSEC, recent); }
    case EchoRead(need, arrivals) =>
      if d.spkInitialized { WaitFresh(d.q, need, arrivals, MAX_READ_WAIT_TIME_MSEC, recent); }
    case _ =>
  }

  lemma {:induction false} EchoRunFresh(d: Device, rate: nat, events: seq<DeviceEvent>, recent: AudioByte -> bool)
    requires rate > 0 && UnstainedForEcho(d, recent) && LaterRun(d, rate, events, recent)
    ensures All(EchoReferences(d, rate, events), recent)
    decreases |events|
  {
    if events != [] {
      assert [events[0]][0] == events[0];
      EchoStepFresh(d, rate, events[0], recent);
      EchoRunFresh(DeviceStep(d, rate, events[0]), rate, events[1..], recent);
    }
  }

  lemma TwoSteps(d: Device, rate: nat, first: DeviceEvent, second: DeviceEvent, d': Device)
    requires rate > 0 && ValidEvent(first) && ValidEvent(second) && d' == DeviceStep(d, rate, first)
    ensures var events := [first, second];
      && ValidEvents(events) && (RunStrays(d, rate, events) <==> Strays(d, first) || Strays(d', second))
      && References(d, rate, events) == (if first.Process? then ProcessAec(d, rate, first.call).reference else [])
                                        + (if second.Process? then ProcessAec(d', rate, second.call).reference else [])
      && EchoReferences(d, rate, events) == EchoTaken(d, rate, first) + EchoTaken(d', rate, second)
  {
    var events := [first, second];
    assert events[1..] == [second] && [second][1..] == [];
    assert References(d', rate, [second]) ==
      (if second.Process? then ProcessAec(d', rate, second.call).reference else []) + [];
    assert EchoReferences(d', rate, [second]) == EchoTaken(d', rate, second) + [];
    assert RunStrays(d', rate, [second]) <==> Strays(d', second);
  }

  /** A call that takes all there is. */
  function TakeAll(d: Device): Call {
    Call([], 0, |d.q.spk|, [], 0, [])
  }

  /** Starting the speaker and processing a buffer uses all that the queue holds, if it is not flushed. */
  lemma AllIsUsed(d: Device, rate: nat, recent: AudioByte -> bool, events: seq<DeviceEvent>)
    requires rate > 0 && Consistent(d) && d.prevSpkRunning && PastInitChecks(d) && d.q.spk != []
    requires events == [SpkRunning(true), Process(TakeAll(d))]
    ensures LaterRun(d, rate, events, recent) && References(d, rate, events) == d.q.spk
  {
    TwoSteps(d, rate, events[0], events[1], d.(spkRunning := true));
    assert d.q.spk[..|d.q.spk|] == d.q.spk;
  }

  lemma AllIsReadAsEcho(d: Device, rate: nat, recent: AudioByte -> bool, events: seq<DeviceEvent>)
    requires rate > 0 && Consistent(d) && d.spkInitialized
    requires events == [SpkRunning(true), EchoRead(|d.q.spk|, [])]
    ensures LaterRun(d, rate, events, recent) && EchoReferences(d, rate, events) == d.q.spk
  {
    TwoSteps(d, rate, events[0], events[1], d.(spkRunning := true));
    assert d.q.spk[..|d.q.spk|] == d.q.spk;
  }

  /** All that the calls of every later run use as reference was written later, if and only if what the
      queue holds was, or the next call flushes it, or it cannot be used before a stream is opened. */
  lemma ReferencesFreshExactly(d: Device, rate: nat, recent: AudioByte -> bool)
    requires rate > 0 && Consistent(d)
    ensures (forall events :: LaterRun(d, rate, events, recent) ==> All(References(d, rate, events), recent))
      <==> Unstained(d, recent)
  {
    if Unstained(d, recent) {
      forall events | LaterRun(d, rate, events, recent)
        ensures All(References(d, rate, events), recent)
      {
        RunFresh(d, rate, events, recent);
      }
    } else {
      AllIsUsed(d, rate, recent, [SpkRunning(true), Process(TakeAll(d))]);
    }
  }

  /** Reads of the echo reference are fresh in every later run if and only if what the queue holds is, or
      the output is closed.  That the next call would flush it does not help. */
  lemma EchoReadsFreshExactly(d: Device, rate: nat, recent: AudioByte -> bool)
    requires rate > 0 && Consistent(d)
    ensures (forall events :: LaterRun(d, rate, events, recent) ==> All(EchoReferences(d, rate, events), recent))
      <==> UnstainedForEcho(d, recent)
  {
    if UnstainedForEcho(d, recent) {
      forall events | LaterRun(d, rate, events, recent)
        ensures All(EchoReferences(d, rate, events), recent)
      {
        EchoRunFresh(d, rate, events, recent);
      }
    } else {
      AllIsReadAsEcho(d, rate, recent, [SpkRunning(true), EchoRead(|d.q.spk|, [])]);
    }
  }

  /** Which calls leave a clean slate: one past the init checks that sees the speaker idle, and one
      that ends in an error, a divergence or on an empty FIFO. */
  lemma CallsThatCleanUp(d: Device, rate: nat, call: Call)
    requires rate > 0 && ValidArrivals(call.arrivals) && PastInitChecks(d)
    requires !Cancels(d, rate, call)
    ensures CleanSlate(ProcessAec(d, rate, call).device)
  {
  }

  predicate NoCalls(events: seq<DeviceEvent>) {
    forall i :: 0 <= i < |events| ==> !events[i].Process?
  }

  lemma {:induction false} IdleStaysClean(d: Device, rate: nat, events: seq<DeviceEvent>)
    requires rate > 0 && ValidEvents(events)
    requires !d.prevSpkRunning && NoCalls(events)
    ensures !DeviceRun(d, rate, events).prevSpkRunning
    decreases |events|
  {
    if events != [] { IdleStaysClean(DeviceStep(d, rate, events[0]), rate, events[1..]); }
  }

  /** No stale reference.  From a clean slate, whatever is in the queues, every reference byte any
      later call consumes was written later: if all later packets hold only bytes that `recent`
      accepts, so do all references. */
  lemma NoStaleReference(d: Device, rate: nat, events: seq<DeviceEvent>, recent: AudioByte -> bool)
    requires rate > 0 && CleanSlate(d) && LaterRun(d, rate, events, recent)
    ensures All(References(d, rate, events), recent)
  {
    RunFresh(d, rate, events, recent);
  }

  /** After a call that saw the speaker idle, not even what is written before the next call is used:
      that call flushes it. */
  lemma NoStaleReferenceAfterIdle(d: Device, rate: nat, idle: Call, meanwhile: seq<DeviceEvent>,
                                  later: seq<DeviceEvent>, recent: AudioByte -> bool)
    requires rate > 0 && ValidArrivals(idle.arrivals) && PastInitChecks(d) && !d.spkRunning
    requires Orderly(ProcessAec(d, rate, idle).device, rate, meanwhile) && NoCalls(meanwhile)
    requires LaterRun(DeviceRun(ProcessAec(d, rate, idle).device, rate, meanwhile), rate, later, recent)
    ensures All(References(DeviceRun(ProcessAec(d, rate, idle).device, rate, meanwhile), rate, later), recent)
  {
    var d1 := ProcessAec(d, rate, idle).device;
    IdleStaysClean(d1, rate, meanwhile);
    NoStaleReference(DeviceRun(d1, rate, meanwhile), rate, later, recent);
  }

  /** A read of the echo reference does not flush: audio from before the speaker was idle is still there
      when it runs again, and is what such a read takes. */
  lemma EchoReadCanBeStale(d: Device, rate: nat, idle: Call, need: nat)
    requires rate > 0 && ValidArrivals(idle.arrivals) && PastInitChecks(d) && !d.spkRunning
    requires need <= |d.q.spk|
    ensures var d' := DeviceStep(ProcessAec(d, rate, idle).device, rate, SpkRunning(true));
      && CleanSlate(d')
      && EchoReadOf(d', rate, need, []).1.Some? && EchoReadOf(d', rate, need, []).1.value.0 == d.q.spk[..need]
  {
  }
}
