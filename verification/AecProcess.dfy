/** process_aec and the reading of the reference it waits for (hal/audio/audio_aec.c), as one serial
    step of the device: what it does to the queues, to the two speaker flags and to the audio buffer. */
module AecProcess {
  import opened Errno
  import opened Options
  import opened AecQueues
  import opened AecRuns

  const MAX_TIMESTAMP_DIFF_USEC := 200_000
  /** Polls of the FIFO, a millisecond apart, after the first. */
  const MAX_READ_WAIT_TIME_MSEC := 80

  /** The two FIFOs: never made, there, or released with the pointers to them left as they were. */
  datatype Fifos = Absent | Live | Released

  /** The state process_aec works on. */
  datatype Device = Device(q: Queues, fifos: Fifos, spkRunning: bool, prevSpkRunning: bool, micInitialized: bool,
                           spkInitialized: bool)

  /** One packet handed to write_to_reference_fifo. */
  datatype Write = Write(audio: seq<AudioByte>, accepted: nat, stamp: Timespec) {
    predicate Valid() { accepted <= |audio| }
  }

  predicate ValidWrites(writes: seq<Write>) {
    forall i :: 0 <= i < |writes| ==> writes[i].Valid()
  }

  predicate ValidArrivals(arrivals: seq<seq<Write>>) {
    forall i :: 0 <= i < |arrivals| ==> ValidWrites(arrivals[i])
  }

  /** One call: the microphone audio and its time, the bytes of speaker audio it needs, the packets that
      arrive during each millisecond of waiting, and the result of the canceller. */
  datatype Call = Call(mic: seq<Byte>, micTime: nat, need: nat, arrivals: seq<seq<Write>>, status: int,
                       cancelled: seq<Byte>)

  datatype Outcome = Outcome(ret: int, buffer: seq<Byte>, device: Device, reference: seq<AudioByte>, spkTime: int)

  function Deliver(q: Queues, writes: seq<Write>): Queues
    requires ValidWrites(writes)
    decreases |writes|
  {
    if writes == [] then q
    else Deliver(WritePacket(q, writes[0].audio, writes[0].accepted, writes[0].stamp), writes[1..])
  }

  /** The polling loop of get_reference_samples, with `waits` polls left after this one. */
  function Wait(q: Queues, need: nat, arrivals: seq<seq<Write>>, waits: nat): (bool, Queues)
    requires ValidArrivals(arrivals)
    ensures Wait(q, need, arrivals, waits).0 ==> |Wait(q, need, arrivals, waits).1.spk| >= need
    decreases waits
  {
    if |q.spk| >= need then (true, q)
    else
      var q' := if arrivals == [] then q else Deliver(q, arrivals[0]);
      if waits == 0 then (false, q')
      else Wait(q', need, if arrivals == [] then [] else arrivals[1..], waits - 1)
  }

  predicate Diverged(micTime: int, spkTime: int) {
    || spkTime == 0
    || micTime == 0
    || (if micTime > spkTime then micTime - spkTime else spkTime - micTime) > MAX_TIMESTAMP_DIFF_USEC
  }

  /** The queues a call starts from, after the flush that follows an idle speaker. */
  function Starting(d: Device): Queues {
    if d.prevSpkRunning then d.q else Flush(d.q)
  }

  function Polled(d: Device, call: Call): (bool, Queues)
    requires ValidArrivals(call.arrivals)
  {
    Wait(Starting(d), call.need, call.arrivals, MAX_READ_WAIT_TIME_MSEC)
  }

  function ProcessAec(d: Device, rate: nat, call: Call): Outcome
    requires rate > 0 && ValidArrivals(call.arrivals)
  {
    if !d.micInitialized || !d.spkInitialized then Outcome(0 - EINVAL, call.mic, d, [], 0)
    else if !d.spkRunning then Outcome(0, call.mic, d.(prevSpkRunning := false), [], 0)
    else
      var ready := d.(prevSpkRunning := true);
      if Starting(d).spk == [] then Outcome(0, call.mic, ready.(q := Starting(d)), [], 0)
      else
        var (enough, q) := Polled(d, call);
        if !enough then Outcome(0 - ENOMEM, call.mic, ready.(q := Flush(q)), [], 0)
        else
          var (spkTime, q') := ReadReference(q, call.need, rate);
          var reference := q.spk[..call.need];
          if Diverged(call.micTime, spkTime) then Outcome(0, call.mic, ready.(q := Flush(q')), reference, spkTime)
          else if call.status == 0 then Outcome(0 - EINVAL, call.mic, ready.(q := Flush(q')), reference, spkTime)
          else Outcome(0, call.cancelled, ready.(q := q'), reference, spkTime)
  }

  // ---------------------------------------------------------------- waiting

  /** The queues after the first k milliseconds. */
  function After(q: Queues, arrivals: seq<seq<Write>>, k: nat): Queues
    requires ValidArrivals(arrivals)
    decreases k
  {
    if k == 0 then q
    else if arrivals == [] then After(q, [], k - 1)
    else After(Deliver(q, arrivals[0]), arrivals[1..], k - 1)
  }

  predicate TooLittle(q: Queues, need: nat, arrivals: seq<seq<Write>>, k: nat)
    requires ValidArrivals(arrivals)
  {
    |After(q, arrivals, k).spk| < need
  }

  lemma TooLittleLater(q: Queues, need: nat, arrivals: seq<seq<Write>>, k: nat)
    requires ValidArrivals(arrivals) && forall j: nat :: j < k + 1 ==> TooLittle(q, need, arrivals, j)
    ensures var next := if arrivals == [] then q else Deliver(q, arrivals[0]);
      var rest := if arrivals == [] then [] else arrivals[1..];
      forall j: nat :: j < k ==> TooLittle(next, need, rest, j)
  {
    var next := if arrivals == [] then q else Deliver(q, arrivals[0]);
    var rest := if arrivals == [] then [] else arrivals[1..];
    forall j: nat | j < k
      ensures TooLittle(next, need, rest, j)
    {
      assert TooLittle(q, need, arrivals, j + 1);
    }
  }

  /** Waiting stops at the first poll that finds enough audio. */
  lemma {:induction false} WaitStopsAtFirst(q: Queues, need: nat, arrivals: seq<seq<Write>>, waits: nat, k: nat)
    requires ValidArrivals(arrivals) && k <= waits
    requires forall j: nat :: j < k ==> TooLittle(q, need, arrivals, j)
    requires !TooLittle(q, need, arrivals, k)
    ensures Wait(q, need, arrivals, waits) == (true, After(q, arrivals, k))
    decreases k
  {
    if k > 0 {
      assert TooLittle(q, need, arrivals, 0);
      TooLittleLater(q, need, arrivals, k - 1);
      WaitStopsAtFirst(if arrivals == [] then q else Deliver(q, arrivals[0]), need,
                       if arrivals == [] then [] else arrivals[1..], waits - 1, k - 1);
    }
  }

  /** Waiting times out when no poll finds enough; what arrives in the last millisecond is queued
      but not looked at. */
  lemma {:induction false} WaitTimesOut(q: Queues, need: nat, arrivals: seq<seq<Write>>, waits: nat)
    requires ValidArrivals(arrivals)
    requires forall j: nat :: j < waits + 1 ==> TooLittle(q, need, arrivals, j)
    ensures Wait(q, need, arrivals, waits) == (false, After(q, arrivals, waits + 1))
    decreases waits
  {
    assert TooLittle(q, need, arrivals, 0);
    if waits > 0 {
      TooLittleLater(q, need, arrivals, waits);
      WaitTimesOut(if arrivals == [] then q else Deliver(q, arrivals[0]), need,
                   if arrivals == [] then [] else arrivals[1..], waits - 1);
    } else {
      var next := if arrivals == [] then q else Deliver(q, arrivals[0]);
      assert After(next, if arrivals == [] then [] else arrivals[1..], 0) == next;
    }
  }

  // ---------------------------------------------------------------- the audio buffer

  predicate PastInitChecks(d: Device) {
    d.micInitialized && d.spkInitialized
  }

  /** The call takes reference audio. */
  predicate Reads(d: Device, call: Call)
    requires ValidArrivals(call.arrivals)
  {
    PastInitChecks(d) && d.spkRunning && Starting(d).spk != [] && Polled(d, call).0
  }

  /** Everything a call needs for its buffer to be the canceller's. */
  predicate Cancels(d: Device, rate: nat, call: Call)
    requires rate > 0 && ValidArrivals(call.arrivals)
  {
    && Reads(d, call)
    && !Diverged(call.micTime, ReadReference(Polled(d, call).1, call.need, rate).0)
    && call.status != 0
  }

  /** The buffer comes back as the raw microphone signal unless the canceller succeeded on a
      reference of a plausible time.  Any error past the init checks also leaves both queues empty. */
  lemma BufferIsRawUnlessCancelled(d: Device, rate: nat, call: Call)
    requires rate > 0 && ValidArrivals(call.arrivals)
    ensures var r := ProcessAec(d, rate, call);
      && (Cancels(d, rate, call) ==> r.buffer == call.cancelled && r.ret == 0)
      && (!Cancels(d, rate, call) ==> r.buffer == call.mic)
      && (r.ret != 0 ==> r.buffer == call.mic)
      && (r.ret != 0 && PastInitChecks(d) ==> r.device.q == Flush(r.device.q))
  {
  }

  /** The error numbers of a call: -EINVAL if the streams are not set up or the canceller fails on a
      reference of a plausible time, -ENOMEM if not enough audio arrives, and else none. */
  lemma ProcessReturns(d: Device, rate: nat, call: Call)
    requires rate > 0 && ValidArrivals(call.arrivals)
    ensures var ret := ProcessAec(d, rate, call).ret;
      && (ret == 0 || ret == -22 || ret == -12)
      && (ret == -12 <==> PastInitChecks(d) && d.spkRunning && Starting(d).spk != [] && !Polled(d, call).0)
      && (ret == -22 <==>
            || !PastInitChecks(d)
            || (Reads(d, call) && call.status == 0
                && !Diverged(call.micTime, ReadReference(Polled(d, call).1, call.need, rate).0)))
  {
  }

  /** What a call reads, and when: if it is set up, the speaker runs and there is audio once the queues are
      flushed after an idle speaker, it takes as much as it needs at the first of 81 polls, a millisecond
      apart, that finds as much; and it reads nothing if none does. */
  lemma ReadsExactly(d: Device, rate: nat, call: Call)
    requires rate > 0 && ValidArrivals(call.arrivals)
    ensures Reads(d, call) <==>
      && d.micInitialized && d.spkInitialized && d.spkRunning && Starting(d).spk != []
      && exists k: nat :: k < 81 && !TooLittle(Starting(d), call.need, call.arrivals, k)
    ensures Reads(d, call) ==>
      && (exists k: nat :: k < 81 && !TooLittle(Starting(d), call.need, call.arrivals, k)
            && (forall j: nat :: j < k ==> TooLittle(Starting(d), call.need, call.arrivals, j))
            && Polled(d, call).1 == After(Starting(d), call.arrivals, k))
      && ProcessAec(d, rate, call).reference == Polled(d, call).1.spk[..call.need]
    ensures !Reads(d, call) ==>
      ProcessAec(d, rate, call).reference == [] && ProcessAec(d, rate, call).spkTime == 0
  {
    var q := Starting(d);
    if k: nat :| k < 81 && !TooLittle(q, call.need, call.arrivals, k) {
      var first := FirstEnough(q, call.need, call.arrivals, k);
      WaitStopsAtFirst(q, call.need, call.arrivals, 80, first);
    } else {
      WaitTimesOut(q, call.need, call.arrivals, 80);
    }
  }

  lemma {:induction false} FirstEnough(q: Queues, need: nat, arrivals: seq<seq<Write>>, k: nat) returns (first: nat)
    requires ValidArrivals(arrivals) && !TooLittle(q, need, arrivals, k)
    ensures first <= k && !TooLittle(q, need, arrivals, first)
    ensures forall j: nat :: j < first ==> TooLittle(q, need, arrivals, j)
  {
    if j: nat :| j < k && !TooLittle(q, need, arrivals, j) {
      first := FirstEnough(q, need, arrivals, j);
    } else {
      first := k;
    }
  }

  /** After a cancellation the next call goes on where it stopped: it does not flush, and what it finds is
      the rest of the audio. */
  lemma NextCallContinues(d: Device, rate: nat, call: Call)
    requires rate > 0 && ValidArrivals(call.arrivals) && Cancels(d, rate, call)
    ensures var d' := ProcessAec(d, rate, call).device;
      && d'.spkRunning && PastInitChecks(d') && Starting(d') == d'.q
      && Polled(d, call).1.spk == ProcessAec(d, rate, call).reference + d'.q.spk
      && |ProcessAec(d, rate, call).reference| == call.need
  {
  }

  /** And a call changes nothing but the queues and what it saw of the speaker; the queues are flushed at
      the start if and only if the call before saw the speaker idle. */
  lemma OnlyQueuesChange(d: Device, rate: nat, call: Call)
    requires rate > 0 && ValidArrivals(call.arrivals)
    ensures var d' := ProcessAec(d, rate, call).device;
      && d' == d.(q := d'.q, prevSpkRunning := d'.prevSpkRunning)
      && d'.prevSpkRunning == (if PastInitChecks(d) then d.spkRunning else d.prevSpkRunning)
      && (!PastInitChecks(d) || !d.spkRunning ==> d'.q == d.q)
    ensures d.prevSpkRunning ==> Starting(d) == d.q
    ensures !d.prevSpkRunning ==> Starting(d).spk == [] && Starting(d).ts == [] && Starting(d).diff == 0
  {
  }

  // ---------------------------------------------------------------- the queues stay in step

  lemma {:induction false} DeliverKeeps(q: Queues, writes: seq<Write>)
    requires Inv(q) && ValidWrites(writes)
    ensures Inv(Deliver(q, writes))
    ensures NonEmptyRecords(q.ts) && NonEmptyWrites(writes) ==> NonEmptyRecords(Deliver(q, writes).ts)
    decreases |writes|
  {
    if writes != [] {
      var w := writes[0];
      PacketAppends(q, w.audio, w.accepted, w.stamp);
      DeliverKeeps(WritePacket(q, w.audio, w.accepted, w.stamp), writes[1..]);
    }
  }

  predicate NonEmptyWrites(writes: seq<Write>) {
    forall i :: 0 <= i < |writes| ==> writes[i].accepted > 0
  }

  predicate NonEmptyArrivals(arrivals: seq<seq<Write>>) {
    forall i :: 0 <= i < |arrivals| ==> NonEmptyWrites(arrivals[i])
  }

  lemma {:induction false} WaitKeeps(q: Queues, need: nat, arrivals: seq<seq<Write>>, waits: nat)
    requires Inv(q) && ValidArrivals(arrivals)
    ensures Inv(Wait(q, need, arrivals, waits).1)
    ensures NonEmptyRecords(q.ts) && NonEmptyArrivals(arrivals) ==> NonEmptyRecords(Wait(q, need, arrivals, waits).1.ts)
    decreases waits
  {
    if |q.spk| < need {
      if arrivals != [] { DeliverKeeps(q, arrivals[0]); }
      if waits > 0 {
        WaitKeeps(if arrivals == [] then q else Deliver(q, arrivals[0]), need,
                  if arrivals == [] then [] else arrivals[1..], waits - 1);
      }
    }
  }

  /** A read on queues in step leaves them in step, and reports the time of its first byte. */
  lemma ReadKeeps(q: Queues, need: nat, rate: nat)
    requires rate > 0 && Inv(q) && need <= |q.spk|
    ensures var (time, q') := ReadReference(q, need, rate);
      && Inv(q') && Unread(q', None) == Unread(q, None)[need..]
      && (NonEmptyRecords(q.ts) ==>
            && NonEmptyRecords(q'.ts) && TimedAs(time, HeadOf(Unread(q, None)), rate)
            && time == HeadTime(Unread(q, None), rate))
  {
    StepKeepsInvariant(q, Reference(need), rate);
    if NonEmptyRecords(q.ts) {
      ReadIsExact(q, need, rate);
      TimedOnce(ReadReference(q, need, rate).0, Unread(q, None), rate);
      assert [Reference(need)][0] == Reference(need);
      StepKeepsNonEmpty(q, Reference(need), rate);
    }
  }

  /** A call keeps the two queues in step, packets arriving while it waits included; and the time it
      gives the canceller is the exact time of the first reference byte. */
  lemma ProcessKeepsQueues(d: Device, rate: nat, call: Call)
    requires rate > 0 && ValidArrivals(call.arrivals) && Inv(d.q)
    ensures var r := ProcessAec(d, rate, call);
      && Inv(r.device.q)
      && (Reads(d, call) && NonEmptyRecords(d.q.ts) && NonEmptyArrivals(call.arrivals) ==>
            Inv(Polled(d, call).1) && TimedAs(r.spkTime, HeadOf(Unread(Polled(d, call).1, None)), rate))
  {
    FlushRestores(d.q);
    WaitKeeps(Starting(d), call.need, call.arrivals, MAX_READ_WAIT_TIME_MSEC);
    var (enough, q) := Polled(d, call);
    FlushRestores(q);
    if enough {
      ReadKeeps(q, call.need, rate);
      FlushRestores(ReadReference(q, call.need, rate).1);
    }
  }
}
