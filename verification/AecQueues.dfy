/** The echo-reference queues of hal/audio/audio_aec.c: the speaker audio FIFO, the FIFO with one
    timestamp record per write packet, and `read_write_diff_bytes`, the signed counter that is the
    only link between the two.

    The specification is a single queue of byte descriptions: every unread byte carries the packet
    that delivered it and its place in that packet.  `Unread` is the abstraction function. */
module AecQueues {
  import opened Arith
  import opened Options

  type Byte = x: int | 0 <= x < 0x100

  /** One byte of speaker audio.  `serial` is the byte's place in the whole speaker stream; it is
      bookkeeping of the model, and no operation looks at it. */
  datatype AudioByte = AudioByte(value: Byte, serial: nat)

  datatype Timespec = Timespec(sec: nat, nsec: nat)

  /** struct aec_info, as queued: the number of bytes the audio FIFO took and when they play. */
  datatype AecInfo = AecInfo(timestamp: Timespec, bytes: nat)

  /** The fields of struct aec_t that the queue operations read and write. */
  datatype Queues = Queues(spk: seq<AudioByte>, ts: seq<AecInfo>, last: AecInfo, diff: int)

  const EMPTY_INFO := AecInfo(Timespec(0, 0), 0)
  const INITIAL := Queues([], [], EMPTY_INFO, 0)

  /** A time in nanoseconds. */
  function Nanoseconds(t: Timespec): nat {
    1_000_000_000 * t.sec + t.nsec
  }

  /** timespec_to_usec: whole microseconds, rounded down. */
  function TimespecToUsec(t: Timespec): (r: nat)
    ensures 1000 * r <= Nanoseconds(t) < 1000 * (r + 1)
  {
    t.sec * 1_000_000 + t.nsec / 1000
  }

  // ---------------------------------------------------------------- operations, as functions

  /** fifo_write to the audio FIFO takes `accepted` of the bytes offered. */
  function WriteAudio(q: Queues, audio: seq<AudioByte>, accepted: nat): Queues
    requires accepted <= |audio|
  {
    q.(spk := q.spk + audio[..accepted])
  }

  function WriteRecord(q: Queues, info: AecInfo): Queues {
    q.(ts := q.ts + [info])
  }

  /** write_to_reference_fifo: audio, then a record of the number of bytes taken. */
  function WritePacket(q: Queues, audio: seq<AudioByte>, accepted: nat, stamp: Timespec): Queues
    requires accepted <= |audio|
  {
    WriteRecord(WriteAudio(q, audio, accepted), AecInfo(stamp, accepted))
  }

  function Flush(q: Queues): Queues {
    q.(spk := [], ts := [], diff := 0)
  }

  /** The fast-forward loop of get_spk_timestamp: pop records until the counter is not positive. */
  function FastForward(ts: seq<AecInfo>, last: AecInfo, diff: int): (seq<AecInfo>, AecInfo, int) {
    if diff > 0 && ts != [] then FastForward(ts[1..], ts[0], diff - ts[0].bytes) else (ts, last, diff)
  }

  /** get_spk_timestamp gives up, leaving the counter alone. */
  predicate NoNewTimestamps(q: Queues) {
    q.diff >= 0 && q.ts == []
  }

  /** The record that get_spk_timestamp takes the time from, the offset into it, and what is left. */
  function CurrentRecord(q: Queues): (r: (AecInfo, int, seq<AecInfo>, int))
    requires !NoNewTimestamps(q)
  {
    if q.diff < 0 then (q.last, q.last.bytes + q.diff, q.ts, q.diff)
    else (q.ts[0], 0, q.ts[1..], q.diff - q.ts[0].bytes)
  }

  /** The queues after the counter has moved on by n bytes. */
  function Advance(q: Queues, n: nat): Queues
    requires !NoNewTimestamps(q)
  {
    var (info, _, ts, diff) := CurrentRecord(q);
    var (ts', last', diff') := FastForward(ts, info, diff + n);
    q.(ts := ts', last := last', diff := diff')
  }

  /** get_spk_timestamp(read_bytes = n), called after the audio has been read. */
  function SpkTimestamp(q: Queues, n: nat, bytesPerSecond: nat): (int, Queues)
    requires bytesPerSecond > 0
  {
    if NoNewTimestamps(q) then (0, q)
    else (TimeAt(CurrentRecord(q).0, CurrentRecord(q).1, bytesPerSecond), Advance(q, n))
  }

  /** The time of a byte `offset` bytes into a packet: its stamp plus the duration of those bytes. */
  function TimeAt(info: AecInfo, offset: int, bytesPerSecond: nat): int
    requires bytesPerSecond > 0
  {
    TimespecToUsec(info.timestamp) + offset * 1_000_000 / bytesPerSecond
  }

  /** The reading half of get_reference_samples: take n bytes of audio, then find their time. */
  function ReadReference(q: Queues, n: nat, bytesPerSecond: nat): (int, Queues)
    requires n <= |q.spk| && bytesPerSecond > 0
  {
    SpkTimestamp(q.(spk := q.spk[n..]), n, bytesPerSecond)
  }

  // ---------------------------------------------------------------- the specification queue

  /** A byte described by the packet that delivered it and its place there. */
  datatype Tag = Tag(info: AecInfo, pos: nat)

  function PacketTags(info: AecInfo): (r: seq<Tag>)
    ensures |r| == info.bytes
  {
    seq(info.bytes, i requires 0 <= i => Tag(info, i))
  }

  function AllTags(records: seq<AecInfo>): seq<Tag> {
    if records == [] then [] else PacketTags(records[0]) + AllTags(records[1..])
  }

  function SumBytes(records: seq<AecInfo>): nat {
    if records == [] then 0 else records[0].bytes + SumBytes(records[1..])
  }

  /** The records that describe audio: the current one, those queued, and that of a half-done write. */
  function Records(q: Queues, pending: Option<AecInfo>): seq<AecInfo> {
    [q.last] + q.ts + (if pending.Some? then [pending.value] else [])
  }

  /** How far the reader is into the bytes of `Records`. */
  function Position(q: Queues): int {
    q.last.bytes + q.diff
  }

  ghost predicate Conserved(q: Queues, pending: Option<AecInfo>) {
    && 0 <= Position(q) <= |AllTags(Records(q, pending))|
    && |q.spk| == |AllTags(Records(q, pending))| - Position(q)
  }

  function Unread(q: Queues, pending: Option<AecInfo>): seq<Tag>
    requires 0 <= Position(q) <= |AllTags(Records(q, pending))|
  {
    AllTags(Records(q, pending))[Position(q)..]
  }

  /** A time, in microseconds, is that of a byte at so many bytes per second: it is the stamp of the
      byte's packet, rounded down, and as many microseconds more as fit the bytes before it there. */
  predicate TimesByte(time: int, tag: Tag, bytesPerSecond: nat) {
    var d := time - Nanoseconds(tag.info.timestamp) / 1000;
    d * bytesPerSecond <= 1_000_000 * tag.pos < (d + 1) * bytesPerSecond
  }

  /** No byte has two times. */
  lemma TimesByteOnce(time: int, time': int, tag: Tag, bytesPerSecond: nat)
    requires bytesPerSecond > 0 && TimesByte(time, tag, bytesPerSecond) && TimesByte(time', tag, bytesPerSecond)
    ensures time == time'
  {
    var usec := Nanoseconds(tag.info.timestamp) / 1000;
    if time < time' { MulLeq(time - usec + 1, time' - usec, bytesPerSecond); }
    if time' < time { MulLeq(time' - usec + 1, time - usec, bytesPerSecond); }
  }

  lemma TimeAtTimes(tag: Tag, bytesPerSecond: nat)
    requires bytesPerSecond > 0
    ensures TimesByte(TimeAt(tag.info, tag.pos, bytesPerSecond), tag, bytesPerSecond)
  {
    var usec := TimespecToUsec(tag.info.timestamp);
    assert usec == Nanoseconds(tag.info.timestamp) / 1000;
    DivBounds(tag.pos * 1_000_000, bytesPerSecond);
  }

  /** The time of a byte. */
  function TagTime(tag: Tag, bytesPerSecond: nat): (r: int)
    requires bytesPerSecond > 0
    ensures TimesByte(r, tag, bytesPerSecond)
  {
    DivBounds(1_000_000 * tag.pos, bytesPerSecond);
    Nanoseconds(tag.info.timestamp) / 1000 + 1_000_000 * tag.pos / bytesPerSecond
  }

  lemma {:induction false} AllTagsLength(records: seq<AecInfo>)
    ensures |AllTags(records)| == SumBytes(records)
  {
    if records != [] { AllTagsLength(records[1..]); }
  }

  lemma {:induction false} AllTagsConcat(a: seq<AecInfo>, b: seq<AecInfo>)
    ensures AllTags(a + b) == AllTags(a) + AllTags(b)
  {
    if a == [] {
      assert a + b == b;
    } else {
      assert (a + b)[1..] == a[1..] + b;
      AllTagsConcat(a[1..], b);
    }
  }

  lemma {:induction false} SumBytesConcat(a: seq<AecInfo>, b: seq<AecInfo>)
    ensures SumBytes(a + b) == SumBytes(a) + SumBytes(b)
  {
    AllTagsConcat(a, b);
    AllTagsLength(a); AllTagsLength(b); AllTagsLength(a + b);
  }

  /** Conservation in bytes: what the records promise is what is unread, up to the counter. */
  lemma ConservationInBytes(q: Queues, pending: Option<AecInfo>)
    ensures Conserved(q, pending) <==>
      && 0 <= q.last.bytes + q.diff
      && SumBytes(q.ts) + (if pending.Some? then pending.value.bytes else 0) == |q.spk| + q.diff
  {
    var tail := if pending.Some? then [pending.value] else [];
    AllTagsLength(Records(q, pending));
    SumBytesConcat([q.last] + q.ts, tail);
    SumBytesConcat([q.last], q.ts);
    assert SumBytes([q.last]) == q.last.bytes + SumBytes([q.last][1..]);
    assert SumBytes(tail) == if pending.Some? then pending.value.bytes + SumBytes(tail[1..]) else 0;
  }

  // ---------------------------------------------------------------- reading

  /** Moving on to the next record does not change what is unread. */
  lemma {:induction false} FastForwardUnread(ts: seq<AecInfo>, last: AecInfo, diff: int, more: seq<AecInfo>)
    requires 0 <= last.bytes + diff <= |AllTags([last] + ts + more)|
    ensures var (ts', last', diff') := FastForward(ts, last, diff);
      && 0 <= last'.bytes + diff' <= |AllTags([last'] + ts' + more)|
      && AllTags([last'] + ts' + more)[last'.bytes + diff'..] == AllTags([last] + ts + more)[last.bytes + diff..]
      && (diff' <= 0 || ts' == [])
    decreases |ts|
  {
    if diff > 0 && ts != [] {
      NextRecord(last, ts, diff, more);
      FastForwardUnread(ts[1..], ts[0], diff - ts[0].bytes, more);
    }
  }

  lemma NextRecord(last: AecInfo, ts: seq<AecInfo>, diff: int, more: seq<AecInfo>)
    requires ts != [] && 0 <= diff
    requires last.bytes + diff <= |AllTags([last] + ts + more)|
    ensures AllTags([last] + ts + more) == PacketTags(last) + AllTags([ts[0]] + ts[1..] + more)
    ensures AllTags([last] + ts + more)[last.bytes + diff..] == AllTags([ts[0]] + ts[1..] + more)[diff..]
  {
    assert ([last] + ts + more)[1..] == [ts[0]] + ts[1..] + more;
  }

  /** Switching to the record the time is taken from does not change what is unread. */
  lemma CurrentRecordUnread(q: Queues, more: seq<AecInfo>)
    requires !NoNewTimestamps(q)
    requires 0 <= Position(q) <= |AllTags([q.last] + q.ts + more)|
    ensures var (info, _, ts, diff) := CurrentRecord(q);
      && 0 <= info.bytes + diff <= |AllTags([info] + ts + more)|
      && AllTags([info] + ts + more)[info.bytes + diff..] == AllTags([q.last] + q.ts + more)[Position(q)..]
  {
    if q.diff >= 0 {
      NextRecord(q.last, q.ts, q.diff, more);
    }
  }

  lemma DropMore<T>(s: seq<T>, i: nat, n: nat)
    requires i + n <= |s|
    ensures s[i..][n..] == s[i + n..]
  {
  }

  /** Skipping records after n bytes have been read. */
  lemma SkipUnread(ts: seq<AecInfo>, info: AecInfo, diff: int, n: nat, more: seq<AecInfo>, unread: seq<Tag>)
    requires 0 <= info.bytes + diff <= |AllTags([info] + ts + more)|
    requires unread == AllTags([info] + ts + more)[info.bytes + diff..] && n <= |unread|
    ensures var (ts', last', diff') := FastForward(ts, info, diff + n);
      && 0 <= last'.bytes + diff' <= |AllTags([last'] + ts' + more)|
      && AllTags([last'] + ts' + more)[last'.bytes + diff'..] == unread[n..]
      && (diff' <= 0 || ts' == [])
  {
    DropMore(AllTags([info] + ts + more), info.bytes + diff, n);
    FastForwardUnread(ts, info, diff + n, more);
  }

  lemma AdvanceUnread(q: Queues, n: nat, more: seq<AecInfo>)
    requires !NoNewTimestamps(q)
    requires 0 <= Position(q) <= Position(q) + n <= |AllTags([q.last] + q.ts + more)|
    ensures var q' := Advance(q, n);
      && 0 <= Position(q') <= |AllTags([q'.last] + q'.ts + more)|
      && AllTags([q'.last] + q'.ts + more)[Position(q')..] == AllTags([q.last] + q.ts + more)[Position(q)..][n..]
      && (q'.diff <= 0 || q'.ts == [])
  {
    var (info, _, ts, diff) := CurrentRecord(q);
    CurrentRecordUnread(q, more);
    SkipUnread(ts, info, diff, n, more, AllTags([q.last] + q.ts + more)[Position(q)..]);
  }

  /** A read of n bytes keeps conservation and drops exactly the first n byte descriptions, unless
      it takes the early return for want of timestamps. */
  lemma ReadKeepsConservation(q: Queues, n: nat, pending: Option<AecInfo>, bytesPerSecond: nat)
    requires Conserved(q, pending) && n <= |q.spk| && bytesPerSecond > 0
    requires !NoNewTimestamps(q)
    ensures var (_, q') := ReadReference(q, n, bytesPerSecond);
      && Conserved(q', pending)
      && Unread(q', pending) == Unread(q, pending)[n..]
      && (q'.diff <= 0 || q'.ts == [])
  {
    var after := q.(spk := q.spk[n..]);
    AdvanceUnread(after, n, if pending.Some? then [pending.value] else []);
    assert ReadReference(q, n, bytesPerSecond).1 == Advance(after, n);
  }

  /** Conservation survives a read exactly when the read is not an early return that took audio. */
  lemma ReadConservesExactly(q: Queues, n: nat, pending: Option<AecInfo>, bytesPerSecond: nat)
    requires Conserved(q, pending) && n <= |q.spk| && bytesPerSecond > 0
    ensures Conserved(ReadReference(q, n, bytesPerSecond).1, pending) <==> !(NoNewTimestamps(q) && n > 0)
  {
    if !NoNewTimestamps(q) {
      ReadKeepsConservation(q, n, pending, bytesPerSecond);
    }
  }

  // ---------------------------------------------------------------- exactness of the time

  /** The record, counted from the front, that holds byte `position`, and the place in it. */
  function Locate(records: seq<AecInfo>, position: nat): (r: (nat, nat))
    requires position < |AllTags(records)|
    ensures r.0 < |records| && r.1 < records[r.0].bytes
    ensures AllTags(records)[position] == Tag(records[r.0], r.1)
  {
    if position < records[0].bytes then (0, position)
    else
      var (k, pos) := Locate(records[1..], position - records[0].bytes);
      (k + 1, pos)
  }

  /** The record and the place in it that get_spk_timestamp takes the time from. */
  function TimedAt(q: Queues): (nat, int) {
    if q.diff < 0 then (0, Position(q)) else (1, 0)
  }

  /** The guard under which the reported time is that of the first byte read. */
  predicate TimeIsExact(q: Queues) {
    q.diff < 0 || (q.diff == 0 && q.ts != [] && q.ts[0].bytes > 0)
  }

  /** The code times the first unread byte by the record and place that byte really has if and only
      if the guard holds. */
  lemma TimedAtFirstUnread(q: Queues, pending: Option<AecInfo>)
    requires Conserved(q, pending) && q.spk != []
    ensures TimeIsExact(q) <==>
      !NoNewTimestamps(q) && TimedAt(q) == Locate(Records(q, pending), Position(q))
  {
    var records := Records(q, pending);
    if q.diff >= 0 {
      var rest := records[1..];
      assert AllTags(records) == PacketTags(q.last) + AllTags(rest);
      assert Locate(records, Position(q)).0 == Locate(rest, q.diff).0 + 1;
      if q.ts != [] { assert rest[0] == q.ts[0]; }
    }
  }

  /** Under the guard the reported time is that of the first byte read, by the packet that delivered it. */
  lemma ReportedTime(q: Queues, n: nat, pending: Option<AecInfo>, bytesPerSecond: nat)
    requires Conserved(q, pending) && n <= |q.spk| && q.spk != [] && bytesPerSecond > 0
    requires TimeIsExact(q)
    ensures TimesByte(ReadReference(q, n, bytesPerSecond).0, Unread(q, pending)[0], bytesPerSecond)
  {
    TimedAtFirstUnread(q, pending);
    var (k, pos) := Locate(Records(q, pending), Position(q));
    assert Unread(q, pending)[0] == AllTags(Records(q, pending))[Position(q)];
    assert Records(q, pending)[k] == CurrentRecord(q).0;
    TimeAtTimes(Unread(q, pending)[0], bytesPerSecond);
  }
}
