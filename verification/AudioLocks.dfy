/** The locking of hal/audio/audio_hw.c and audio_aec.c, as a step model of any number of threads.

    A thread runs one entry point at a time.  An entry point is a program of the lock, unlock and
    stream operations of its source; branches on anything the model does not hold are choices.  What
    a stream lock protects, the stream's standby flag and whether its PCM device is open, is owned by
    the thread that holds the lock and kept in `data` while no one does. */
module AudioLocks {

  datatype Lock = InStream(id: nat) | Device | OutStream(id: nat) | AecLock

  /** The acquisition order: input stream, device, output stream, echo canceller. */
  function Rank(l: Lock): nat {
    match l
    case InStream(_) => 0
    case Device => 1
    case OutStream(_) => 2
    case AecLock => 3
  }

  datatype Stream = Stream(standby: bool, pcmOpen: bool)

  /** A stream as calloc and the open call leave it. */
  const NEW_STREAM := Stream(true, false)

  /** The invariant of a lock: when nobody holds it, a stream in standby has no PCM device, and one
      that is not has it open. */
  predicate LockInvariant(l: Lock, v: Stream) {
    (l.InStream? || l.OutStream?) ==> v.standby == !v.pcmOpen
  }

  datatype Prog =
    | Done
    | Acquire(l: Lock, next: Prog)
    | Release(l: Lock, next: Prog)
    | Choose(left: Prog, right: Prog)
    | IfStandby(l: Lock, yes: Prog, no: Prog)
    | SetStandby(l: Lock, on: bool, next: Prog)
    | OpenPcm(l: Lock, next: Prog)
    | ClosePcm(l: Lock, next: Prog)
    | UsePcm(l: Lock, next: Prog)

  // ---------------------------------------------------------------- the entry points

  const PCM_OPEN_RETRIES: nat := 100

  /** start_output_stream and start_input_stream: pcm_open gives a ready device, a device that is not
      ready and is closed again, or none; after the last try the call fails. */
  function StartStream(l: Lock, tries: nat, started: Prog, failed: Prog): Prog {
    var again := if tries <= 1 then failed else StartStream(l, tries - 1, started, failed);
    Choose(OpenPcm(l, started), Choose(OpenPcm(l, ClosePcm(l, again)), again))
  }

  function AecCall(next: Prog): Prog {
    Acquire(AecLock, Release(AecLock, next))
  }

  function OutWrite(o: nat): Prog {
    var out := OutStream(o);
    var exit := Release(out, Done);
    var write := Release(Device, UsePcm(out, Choose(UsePcm(out, exit), exit)));
    Acquire(Device, Acquire(out,
      IfStandby(out,
        StartStream(out, PCM_OPEN_RETRIES, SetStandby(out, false, AecCall(write)), Release(Device, exit)),
        write)))
  }

  function OutStandby(o: nat): Prog {
    var out := OutStream(o);
    var rest := AecCall(Release(out, Release(Device, Done)));
    Acquire(Device, Acquire(out, IfStandby(out, rest, ClosePcm(out, SetStandby(out, true, rest)))))
  }

  function OutSetParameters(o: nat): Prog {
    Choose(Done, Acquire(Device, Acquire(OutStream(o), Release(OutStream(o), Release(Device, Done)))))
  }

  /** in_read of a microphone: after the read, the mute flag is read under the device lock, and
      process_aec, where it is built in, asks whether the speaker runs. */
  function InRead(i: nat): Prog {
    var in_ := InStream(i);
    var process := Acquire(Device, Release(Device, Choose(Done, AecCall(Done))));
    var exit := Release(in_, process);
    var read := Release(Device, UsePcm(in_, UsePcm(in_, exit)));
    Acquire(in_, Acquire(Device,
      IfStandby(in_,
        StartStream(in_, PCM_OPEN_RETRIES, SetStandby(in_, false, read), Release(Device, exit)),
        read)))
  }

  function InStandby(i: nat): Prog {
    var in_ := InStream(i);
    var rest := Release(Device, Release(in_, Done));
    Acquire(in_, Acquire(Device, IfStandby(in_, rest, ClosePcm(in_, SetStandby(in_, true, rest)))))
  }

  datatype Call =
    | Write(stream: nat)
    | OutputStandby(stream: nat)
    | SetParameters(stream: nat)
    | ReadMicrophone(stream: nat)
    | ReadEchoReference
    | InputStandby(stream: nat)
    | MicMute          // adev_set_mic_mute, adev_get_mic_mute, in_get_active_microphones, adev_open
    | ConfigureAec     // the init, destroy and release calls of the echo canceller

  function Program(call: Call): Prog {
    match call
    case Write(o) => OutWrite(o)
    case OutputStandby(o) => OutStandby(o)
    case SetParameters(o) => OutSetParameters(o)
    case ReadMicrophone(i) => InRead(i)
    case ReadEchoReference => AecCall(Done)
    case InputStandby(i) => InStandby(i)
    case MicMute => Acquire(Device, Release(Device, Done))
    case ConfigureAec => AecCall(Done)
  }

  function Max(a: nat, b: nat): nat {
    if a < b then b else a
  }

  /** The most devices that a program opens. */
  function Opens(p: Prog): nat {
    match p
    case Done => 0
    case Acquire(_, next) => Opens(next)
    case Release(_, next) => Opens(next)
    case Choose(left, right) => Max(Opens(left), Opens(right))
    case IfStandby(_, yes, no) => Max(Opens(yes), Opens(no))
    case SetStandby(_, _, next) => Opens(next)
    case OpenPcm(_, next) => 1 + Opens(next)
    case ClosePcm(_, next) => Opens(next)
    case UsePcm(_, next) => Opens(next)
  }

  lemma {:induction false} StartTries(l: Lock, tries: nat, started: Prog, failed: Prog)
    requires tries > 0 && Opens(started) == 0 == Opens(failed)
    ensures Opens(StartStream(l, tries, started, failed)) == tries
  {
    var again := if tries <= 1 then failed else StartStream(l, tries - 1, started, failed);
    if tries > 1 { StartTries(l, tries - 1, started, failed); }
    assert Opens(OpenPcm(l, started)) == 1;
    assert Opens(OpenPcm(l, ClosePcm(l, again))) == 1 + Opens(again);
  }

  lemma StartOpens(l: Lock, started: Prog, failed: Prog, outer: Lock, inner: Lock)
    requires Opens(started) == 0 == Opens(failed)
    ensures var start := StartStream(l, PCM_OPEN_RETRIES, SetStandby(l, false, started), failed);
      Opens(Acquire(outer, Acquire(inner, IfStandby(l, start, started)))) == 100
  {
    var start := StartStream(l, PCM_OPEN_RETRIES, SetStandby(l, false, started), failed);
    StartTries(l, PCM_OPEN_RETRIES, SetStandby(l, false, started), failed);
    assert Opens(IfStandby(l, start, started)) == 100;
    assert Opens(Acquire(inner, IfStandby(l, start, started))) == 100;
  }

  /** A call that starts the microphone opens it up to 100 times, and so does one that starts an output. */
  lemma StartsTryHundredTimes(o: nat, i: nat)
    ensures Opens(OutWrite(o)) == 100 == Opens(InRead(i))
  {
    var out := OutStream(o);
    var exit := Release(out, Done);
    assert Opens(exit) == 0 && Opens(UsePcm(out, exit)) == 0;
    var use := UsePcm(out, Choose(UsePcm(out, exit), exit));
    assert Opens(Choose(UsePcm(out, exit), exit)) == 0 && Opens(use) == 0;
    var write := Release(Device, use);
    assert Opens(write) == 0 && Opens(Release(AecLock, write)) == 0 && Opens(AecCall(write)) == 0;
    StartTries(out, PCM_OPEN_RETRIES, SetStandby(out, false, AecCall(write)), Release(Device, exit));
    var start := StartStream(out, PCM_OPEN_RETRIES, SetStandby(out, false, AecCall(write)), Release(Device, exit));
    assert Opens(IfStandby(out, start, write)) == 100;
    assert Opens(Acquire(out, IfStandby(out, start, write))) == 100;

    var in_ := InStream(i);
    assert Opens(AecCall(Done)) == 0 && Opens(Choose(Done, AecCall(Done))) == 0;
    var process := Acquire(Device, Release(Device, Choose(Done, AecCall(Done))));
    assert Opens(Release(Device, Choose(Done, AecCall(Done)))) == 0 && Opens(process) == 0;
    var left := Release(in_, process);
    assert Opens(left) == 0 && Opens(UsePcm(in_, left)) == 0 && Opens(UsePcm(in_, UsePcm(in_, left))) == 0;
    StartOpens(in_, Release(Device, UsePcm(in_, UsePcm(in_, left))), Release(Device, left), in_, Device);
  }

  /** Whenever the program starts or stops an output, its next step is to lock the echo canceller. */
  predicate TellsCanceller(p: Prog) {
    match p
    case Done => true
    case Acquire(_, next) => TellsCanceller(next)
    case Release(_, next) => TellsCanceller(next)
    case Choose(left, right) => TellsCanceller(left) && TellsCanceller(right)
    case IfStandby(_, yes, no) => TellsCanceller(yes) && TellsCanceller(no)
    case SetStandby(l, _, next) => (l.OutStream? ==> next.Acquire? && next.l == AecLock) && TellsCanceller(next)
    case OpenPcm(_, next) => TellsCanceller(next)
    case ClosePcm(_, next) => TellsCanceller(next)
    case UsePcm(_, next) => TellsCanceller(next)
  }

  lemma {:induction false} StartTells(l: Lock, tries: nat, started: Prog, failed: Prog)
    requires TellsCanceller(started) && TellsCanceller(failed)
    ensures TellsCanceller(StartStream(l, tries, started, failed))
  {
    var again := if tries <= 1 then failed else StartStream(l, tries - 1, started, failed);
    if tries > 1 { StartTells(l, tries - 1, started, failed); }
    assert TellsCanceller(OpenPcm(l, started));
    assert TellsCanceller(OpenPcm(l, ClosePcm(l, again)));
    assert TellsCanceller(Choose(OpenPcm(l, ClosePcm(l, again)), again));
  }

  lemma WriteTells(o: nat)
    ensures TellsCanceller(OutWrite(o))
  {
    var out := OutStream(o);
    var exit := Release(out, Done);
    assert TellsCanceller(exit) && TellsCanceller(UsePcm(out, exit));
    var use := UsePcm(out, Choose(UsePcm(out, exit), exit));
    assert TellsCanceller(Choose(UsePcm(out, exit), exit)) && TellsCanceller(use);
    var write := Release(Device, use);
    assert TellsCanceller(write) && TellsCanceller(Release(AecLock, write)) && TellsCanceller(AecCall(write));
    var started, failed := SetStandby(out, false, AecCall(write)), Release(Device, exit);
    StartTells(out, PCM_OPEN_RETRIES, started, failed);
    var start := StartStream(out, PCM_OPEN_RETRIES, started, failed);
    assert TellsCanceller(IfStandby(out, start, write));
    assert TellsCanceller(Acquire(out, IfStandby(out, start, write)));
  }

  /** Writing and standby tell the canceller of every start and stop of an output. */
  lemma OutputsTell(o: nat)
    ensures TellsCanceller(OutWrite(o)) && TellsCanceller(OutStandby(o))
  {
    WriteTells(o);
    var out := OutStream(o);
    var end := Release(out, Release(Device, Done));
    assert TellsCanceller(Release(Device, Done)) && TellsCanceller(end);
    var rest := AecCall(end);
    assert TellsCanceller(Release(AecLock, end)) && TellsCanceller(rest);
    var stop := ClosePcm(out, SetStandby(out, true, rest));
    assert TellsCanceller(SetStandby(out, true, rest)) && TellsCanceller(stop);
    assert TellsCanceller(IfStandby(out, rest, stop));
    assert TellsCanceller(Acquire(out, IfStandby(out, rest, stop)));
  }

  // ---------------------------------------------------------------- the discipline of a program

  ghost predicate Above(l: Lock, held: map<Lock, Stream>) {
    forall h :: h in held ==> Rank(h) < Rank(l)
  }

  /** From a point where the thread holds `held`, the program acquires in rank order, touches only
      streams whose lock it holds, starts and stops them only with the device lock as well, opens only
      closed devices, uses and closes only open ones, restores each lock's invariant before releasing it,
      and ends with no lock held. */
  ghost predicate Disciplined(p: Prog, held: map<Lock, Stream>) {
    match p
    case Done => held == map[]
    case Acquire(l, next) =>
      Above(l, held) && forall v :: LockInvariant(l, v) ==> Disciplined(next, held[l := v])
    case Release(l, next) => l in held && LockInvariant(l, held[l]) && Disciplined(next, held - {l})
    case Choose(left, right) => Disciplined(left, held) && Disciplined(right, held)
    case IfStandby(l, yes, no) => l in held && Disciplined(if held[l].standby then yes else no, held)
    case SetStandby(l, on, next) => l in held && Device in held && Disciplined(next, held[l := held[l].(standby := on)])
    case OpenPcm(l, next) =>
      l in held && Device in held && !held[l].pcmOpen && Disciplined(next, held[l := held[l].(pcmOpen := true)])
    case ClosePcm(l, next) =>
      l in held && Device in held && held[l].pcmOpen && Disciplined(next, held[l := held[l].(pcmOpen := false)])
    case UsePcm(l, next) => l in held && held[l].pcmOpen && Disciplined(next, held)
  }

  lemma {:induction false} StartStreamDisciplined(l: Lock, tries: nat, started: Prog, failed: Prog, held: map<Lock,
                                                  Stream>)
    requires l in held && l != Device && Device in held && held[l] == NEW_STREAM
    requires Disciplined(started, held[l := Stream(true, true)])
    requires Disciplined(failed, held)
    ensures Disciplined(StartStream(l, tries, started, failed), held)
  {
    var again := if tries <= 1 then failed else StartStream(l, tries - 1, started, failed);
    if tries > 1 { StartStreamDisciplined(l, tries - 1, started, failed, held); }
    var open := held[l := held[l].(pcmOpen := true)];
    assert open == held[l := Stream(true, true)];
    assert open[l := open[l].(pcmOpen := false)] == held;
    assert Disciplined(again, held);
    assert Disciplined(ClosePcm(l, again), open);
    assert Disciplined(OpenPcm(l, ClosePcm(l, again)), held);
  }

  /** A lock taken and released around nothing. */
  lemma BriefDisciplined(l: Lock, next: Prog, held: map<Lock, Stream>)
    requires Above(l, held) && Disciplined(next, held)
    ensures Disciplined(Acquire(l, Release(l, next)), held)
  {
    forall v | LockInvariant(l, v)
      ensures Disciplined(Release(l, next), held[l := v])
    {
      assert held[l := v] - {l} == held;
    }
  }

  lemma OutWriteDisciplined(o: nat)
    ensures Disciplined(OutWrite(o), map[])
  {
    var out := OutStream(o);
    var exit := Release(out, Done);
    var write := Release(Device, UsePcm(out, Choose(UsePcm(out, exit), exit)));
    var start := SetStandby(out, false, AecCall(write));
    var inner := IfStandby(out, StartStream(out, PCM_OPEN_RETRIES, start, Release(Device, exit)), write);
    forall dv | LockInvariant(Device, dv)
      ensures Disciplined(Acquire(out, inner), map[Device := dv])
    {
      forall v | LockInvariant(out, v)
        ensures Disciplined(inner, map[Device := dv][out := v])
      {
        var held := map[Device := dv][out := v];
        assert map[out := v] - {out} == map[];
        assert held - {Device} == map[out := v];
        var running := held[out := Stream(false, true)];
        assert running - {Device} == map[out := Stream(false, true)];
        assert map[out := Stream(false, true)] - {out} == map[];
        assert Disciplined(exit, map[out := Stream(false, true)]);
        assert Disciplined(UsePcm(out, exit), map[out := Stream(false, true)]);
        assert Disciplined(Choose(UsePcm(out, exit), exit), map[out := Stream(false, true)]);
        assert Disciplined(write, running);
        BriefDisciplined(AecLock, write, running);
        if v.standby {
          var open := held[out := Stream(true, true)];
          assert open[out := open[out].(standby := false)] == running;
          assert Disciplined(start, open);
          assert Disciplined(exit, map[out := v]);
          assert Disciplined(Release(Device, exit), held);
          StartStreamDisciplined(out, PCM_OPEN_RETRIES, start, Release(Device, exit), held);
        }
      }
    }
  }

  lemma OutStandbyDisciplined(o: nat)
    ensures Disciplined(OutStandby(o), map[])
  {
    var out := OutStream(o);
    var end := Release(out, Release(Device, Done));
    var rest := AecCall(end);
    var inner := IfStandby(out, rest, ClosePcm(out, SetStandby(out, true, rest)));
    forall dv | LockInvariant(Device, dv)
      ensures Disciplined(Acquire(out, inner), map[Device := dv])
    {
      forall v | LockInvariant(out, v)
        ensures Disciplined(inner, map[Device := dv][out := v])
      {
        var idle := map[Device := dv][out := NEW_STREAM];
        assert idle - {out} == map[Device := dv] && map[Device := dv] - {Device} == map[];
        BriefDisciplined(AecLock, end, idle);
        if !v.standby {
          var held := map[Device := dv][out := v];
          var closed := held[out := held[out].(pcmOpen := false)];
          assert closed[out := closed[out].(standby := true)] == idle;
          assert Disciplined(SetStandby(out, true, rest), closed);
        } else {
          assert map[Device := dv][out := v] == idle;
        }
      }
    }
  }

  lemma OutSetParametersDisciplined(o: nat)
    ensures Disciplined(OutSetParameters(o), map[])
  {
    forall dv | LockInvariant(Device, dv)
      ensures Disciplined(Acquire(OutStream(o), Release(OutStream(o), Release(Device, Done))), map[Device := dv])
    {
      assert map[Device := dv] - {Device} == map[];
      BriefDisciplined(OutStream(o), Release(Device, Done), map[Device := dv]);
    }
  }

  lemma InReadDisciplined(i: nat)
    ensures Disciplined(InRead(i), map[])
  {
    var in_ := InStream(i);
    var process := Acquire(Device, Release(Device, Choose(Done, AecCall(Done))));
    var exit := Release(in_, process);
    var read := Release(Device, UsePcm(in_, UsePcm(in_, exit)));
    var start := SetStandby(in_, false, read);
    var inner := IfStandby(in_, StartStream(in_, PCM_OPEN_RETRIES, start, Release(Device, exit)), read);
    BriefDisciplined(AecLock, Done, map[]);
    BriefDisciplined(Device, Choose(Done, AecCall(Done)), map[]);
    forall v | LockInvariant(in_, v)
      ensures Disciplined(Acquire(Device, inner), map[in_ := v])
    {
      forall dv | LockInvariant(Device, dv)
        ensures Disciplined(inner, map[in_ := v][Device := dv])
      {
        var held := map[in_ := v][Device := dv];
        assert held - {Device} == map[in_ := v] && map[in_ := v] - {in_} == map[];
        var running := held[in_ := Stream(false, true)];
        assert running - {Device} == map[in_ := Stream(false, true)];
        assert map[in_ := Stream(false, true)] - {in_} == map[];
        assert Disciplined(process, map[]);
        assert Disciplined(exit, map[in_ := Stream(false, true)]);
        assert Disciplined(UsePcm(in_, exit), map[in_ := Stream(false, true)]);
        assert Disciplined(read, running);
        if v.standby {
          var open := held[in_ := Stream(true, true)];
          assert open[in_ := open[in_].(standby := false)] == running;
          assert Disciplined(start, open);
          assert Disciplined(exit, map[in_ := v]);
          assert Disciplined(Release(Device, exit), held);
          StartStreamDisciplined(in_, PCM_OPEN_RETRIES, start, Release(Device, exit), held);
        } else {
          assert held == running;
        }
      }
    }
  }

  lemma InStandbyDisciplined(i: nat)
    ensures Disciplined(InStandby(i), map[])
  {
    var in_ := InStream(i);
    var rest := Release(Device, Release(in_, Done));
    var inner := IfStandby(in_, rest, ClosePcm(in_, SetStandby(in_, true, rest)));
    forall v | LockInvariant(in_, v)
      ensures Disciplined(Acquire(Device, inner), map[in_ := v])
    {
      forall dv | LockInvariant(Device, dv)
        ensures Disciplined(inner, map[in_ := v][Device := dv])
      {
        var idle := map[in_ := NEW_STREAM][Device := dv];
        assert idle - {Device} == map[in_ := NEW_STREAM] && map[in_ := NEW_STREAM] - {in_} == map[];
        assert Disciplined(Release(in_, Done), map[in_ := NEW_STREAM]);
        assert Disciplined(rest, idle);
        if !v.standby {
          var held := map[in_ := v][Device := dv];
          var closed := held[in_ := held[in_].(pcmOpen := false)];
          assert closed[in_ := closed[in_].(standby := true)] == idle;
          assert Disciplined(SetStandby(in_, true, rest), closed);
        } else {
          assert map[in_ := v][Device := dv] == idle;
        }
      }
    }
  }

  /** Every entry point keeps the discipline, from its first lock to its last unlock. */
  lemma EntryPointsDisciplined(call: Call)
    ensures Disciplined(Program(call), map[])
  {
    BriefDisciplined(AecLock, Done, map[]);
    BriefDisciplined(Device, Done, map[]);
    match call
    case Write(o) => OutWriteDisciplined(o);
    case OutputStandby(o) => OutStandbyDisciplined(o);
    case SetParameters(o) => OutSetParametersDisciplined(o);
    case ReadMicrophone(i) => InReadDisciplined(i);
    case InputStandby(i) => InStandbyDisciplined(i);
    case _ =>
  }

  // ---------------------------------------------------------------- threads

  datatype Thread = Thread(held: map<Lock, Stream>, prog: Prog)

  const IDLE := Thread(map[], Done)

  /** Any number of threads; `data` holds what free locks protect, a new stream where it has no entry. */
  datatype State = State(threads: map<nat, Thread>, data: map<Lock, Stream>)

  ghost predicate Free(s: State, l: Lock) {
    forall t :: t in s.threads ==> l !in s.threads[t].held
  }

  function Value(data: map<Lock, Stream>, l: Lock): Stream {
    if l in data then data[l] else NEW_STREAM
  }

  function Put(s: State, t: nat, held: map<Lock, Stream>, prog: Prog): State {
    s.(threads := s.threads[t := Thread(held, prog)])
  }

  /** One step of thread t: an idle thread may enter any entry point, an acquisition waits for the
      lock to be free, and everything else goes ahead. */
  ghost predicate Step(s: State, t: nat, s': State) {
    t in s.threads &&
    var held := s.threads[t].held;
    match s.threads[t].prog
    case Done => exists call: Call :: s' == Put(s, t, held, Program(call))
    case Acquire(l, next) => Free(s, l) && s' == Put(s, t, held[l := Value(s.data, l)], next)
    case Release(l, next) => l in held && s' == Put(s, t, held - {l}, next).(data := s.data[l := held[l]])
    case Choose(left, right) => s' == Put(s, t, held, left) || s' == Put(s, t, held, right)
    case IfStandby(l, yes, no) => l in held && s' == Put(s, t, held, if held[l].standby then yes else no)
    case SetStandby(l, on, next) => l in held && s' == Put(s, t, held[l := held[l].(standby := on)], next)
    case OpenPcm(l, next) => l in held && s' == Put(s, t, held[l := held[l].(pcmOpen := true)], next)
    case ClosePcm(l, next) => l in held && s' == Put(s, t, held[l := held[l].(pcmOpen := false)], next)
    case UsePcm(l, next) => l in held && s' == Put(s, t, held, next)
  }

  ghost predicate Next(s: State, s': State) {
    exists t: nat :: Step(s, t, s')
  }

  ghost predicate Init(s: State) {
    s.data == map[] && forall t :: t in s.threads ==> s.threads[t] == IDLE
  }

  /** A run: idle threads, as many as there are, then steps of any of them in any order. */
  ghost predicate Reachable(trace: seq<State>) {
    && |trace| > 0
    && if |trace| == 1 then Init(trace[0])
       else Reachable(trace[..|trace| - 1]) && Next(trace[|trace| - 2], trace[|trace| - 1])
  }

  ghost predicate AllDisciplined(s: State) {
    forall t :: t in s.threads ==> Disciplined(s.threads[t].prog, s.threads[t].held)
  }

  ghost predicate Exclusive(s: State) {
    forall t, u, l :: t in s.threads && u in s.threads && l in s.threads[t].held && l in s.threads[u].held ==> t == u
  }

  ghost predicate DataValid(s: State) {
    forall l :: l in s.data ==> LockInvariant(l, s.data[l])
  }

  ghost predicate Inv(s: State) {
    AllDisciplined(s) && Exclusive(s) && DataValid(s)
  }

  lemma StepKeepsDiscipline(s: State, t: nat, s': State)
    requires AllDisciplined(s) && DataValid(s) && Step(s, t, s')
    ensures AllDisciplined(s') && DataValid(s')
  {
    var held := s.threads[t].held;
    assert Disciplined(s.threads[t].prog, held);
    match s.threads[t].prog
    case Done =>
      var call: Call :| s' == Put(s, t, held, Program(call));
      EntryPointsDisciplined(call);
    case Acquire(l, next) =>
      assert LockInvariant(l, Value(s.data, l));
    case _ =>
  }

  lemma StepKeepsInv(s: State, t: nat, s': State)
    requires Inv(s) && Step(s, t, s')
    ensures Inv(s')
  {
    StepKeepsDiscipline(s, t, s');
  }

  lemma {:induction false} ReachableInv(trace: seq<State>)
    requires Reachable(trace)
    ensures Inv(trace[|trace| - 1])
  {
    if |trace| > 1 {
      var s, s' := trace[|trace| - 2], trace[|trace| - 1];
      ReachableInv(trace[..|trace| - 1]);
      assert trace[..|trace| - 1][|trace| - 2] == s;
      var t: nat :| Step(s, t, s');
      StepKeepsInv(s, t, s');
    }
  }

  // ---------------------------------------------------------------- deadlock freedom

  /** Thread t waits for lock l, which thread u holds. */
  predicate WaitsFor(s: State, t: nat, l: Lock, u: nat) {
    && t in s.threads && u in s.threads
    && s.threads[t].prog.Acquire? && s.threads[t].prog.l == l
    && l in s.threads[u].held
  }

  /** Waiting goes up the ranks: what the holder waits for in turn ranks higher. */
  lemma WaitingClimbs(s: State, t: nat, l: Lock, u: nat, m: Lock, v: nat)
    requires Inv(s) && WaitsFor(s, t, l, u) && WaitsFor(s, u, m, v)
    ensures Rank(l) < Rank(m)
  {
    assert Disciplined(s.threads[u].prog, s.threads[u].held);
  }

  /** A chain of waiting: each thread waits for the lock at the same place, held by the next thread. */
  predicate Chain(s: State, threads: seq<nat>, locks: seq<Lock>) {
    && |threads| == |locks| + 1
    && forall i :: 0 <= i < |locks| ==> WaitsFor(s, threads[i], locks[i], threads[i + 1])
  }

  lemma {:induction false} ChainClimbs(s: State, threads: seq<nat>, locks: seq<Lock>, i: nat)
    requires Inv(s) && Chain(s, threads, locks) && i < |locks|
    ensures Rank(locks[0]) + i <= Rank(locks[i])
  {
    if i > 0 {
      ChainClimbs(s, threads, locks, i - 1);
      WaitingClimbs(s, threads[i - 1], locks[i - 1], threads[i], locks[i], threads[i + 1]);
    }
  }

  /** No reachable state has a circular wait, a thread waiting for itself included. */
  lemma NoCircularWait(trace: seq<State>, threads: seq<nat>, locks: seq<Lock>)
    requires Reachable(trace) && |locks| > 0
    requires Chain(trace[|trace| - 1], threads, locks)
    ensures threads[0] != threads[|locks|]
  {
    var s, n := trace[|trace| - 1], |locks|;
    ReachableInv(trace);
    ChainClimbs(s, threads, locks, n - 1);
    if threads[0] == threads[n] {
      WaitingClimbs(s, threads[n - 1], locks[n - 1], threads[n], locks[0], threads[1]);
    }
  }

  ghost predicate CanStep(s: State, t: nat) {
    exists s' :: Step(s, t, s')
  }

  lemma Unblocked(s: State, t: nat)
    requires Inv(s) && t in s.threads
    requires !s.threads[t].prog.Acquire? || Free(s, s.threads[t].prog.l)
    ensures CanStep(s, t)
  {
    var held := s.threads[t].held;
    assert Disciplined(s.threads[t].prog, held);
    match s.threads[t].prog
    case Done => assert Step(s, t, Put(s, t, held, Program(MicMute)));
    case Acquire(l, next) => assert Step(s, t, Put(s, t, held[l := Value(s.data, l)], next));
    case Release(l, next) => assert Step(s, t, Put(s, t, held - {l}, next).(data := s.data[l := held[l]]));
    case Choose(left, right) => assert Step(s, t, Put(s, t, held, left));
    case IfStandby(l, yes, no) => assert Step(s, t, Put(s, t, held, if held[l].standby then yes else no));
    case SetStandby(l, on, next) => assert Step(s, t, Put(s, t, held[l := held[l].(standby := on)], next));
    case OpenPcm(l, next) => assert Step(s, t, Put(s, t, held[l := held[l].(pcmOpen := true)], next));
    case ClosePcm(l, next) => assert Step(s, t, Put(s, t, held[l := held[l].(pcmOpen := false)], next));
    case UsePcm(l, next) => assert Step(s, t, Put(s, t, held, next));
  }

  /** Follow a thread's wait to its end. */
  lemma {:induction false} FollowWait(s: State, t: nat, threads: seq<nat>, locks: seq<Lock>)
    returns (threads': seq<nat>, locks': seq<Lock>)
    requires Inv(s) && Chain(s, threads, locks) && threads[|locks|] == t
    requires t in s.threads && s.threads[t].prog != Done
    ensures Chain(s, threads', locks') && threads'[0] == threads[0]
    ensures var u := threads'[|locks'|]; u in s.threads && s.threads[u].prog != Done && CanStep(s, u)
    decreases 4 - |locks|
  {
    var prog := s.threads[t].prog;
    if !prog.Acquire? || Free(s, prog.l) {
      Unblocked(s, t);
      return threads, locks;
    }
    var u :| u in s.threads && prog.l in s.threads[u].held;
    assert Disciplined(s.threads[u].prog, s.threads[u].held);
    var threads1, locks1 := threads + [u], locks + [prog.l];
    ChainClimbs(s, threads1, locks1, |locks|);
    threads', locks' := FollowWait(s, u, threads1, locks1);
  }

  /** Deadlock freedom: in every reachable state, each thread inside an entry point either can take a
      step or waits, through a chain of holders, for a thread inside one that can. */
  lemma DeadlockFree(trace: seq<State>, t: nat) returns (threads: seq<nat>, locks: seq<Lock>)
    requires Reachable(trace) && t in trace[|trace| - 1].threads && trace[|trace| - 1].threads[t].prog != Done
    ensures var s := trace[|trace| - 1];
      && Chain(s, threads, locks) && threads[0] == t
      && var u := threads[|locks|]; u in s.threads && s.threads[u].prog != Done && CanStep(s, u)
  {
    ReachableInv(trace);
    threads, locks := FollowWait(trace[|trace| - 1], t, [t], []);
  }

  // ---------------------------------------------------------------- what the locks protect

  /** In every reachable state: no two threads hold the same lock, an idle thread holds none, a PCM
      device in use or about to be closed is open, one about to be opened is not, streams are started and
      stopped only with the device lock held, and a free stream is in standby exactly when its device is
      closed. */
  lemma LocksProtectStreams(trace: seq<State>, t: nat, l: Lock)
    requires Reachable(trace) && t in trace[|trace| - 1].threads
    ensures var s := trace[|trace| - 1];
      var thread := s.threads[t];
      && (l in thread.held ==> forall u :: u in s.threads && u != t ==> l !in s.threads[u].held)
      && (thread.prog.Done? ==> thread.held == map[])
      && (thread.prog.UsePcm? || thread.prog.ClosePcm? ==>
            thread.prog.l in thread.held && thread.held[thread.prog.l].pcmOpen)
      && (thread.prog.OpenPcm? ==> thread.prog.l in thread.held && !thread.held[thread.prog.l].pcmOpen)
      && (thread.prog.OpenPcm? || thread.prog.ClosePcm? || thread.prog.SetStandby? ==> Device in thread.held)
      && LockInvariant(l, Value(s.data, l))
  {
    ReachableInv(trace);
    assert Disciplined(trace[|trace| - 1].threads[t].prog, trace[|trace| - 1].threads[t].held);
  }
}
