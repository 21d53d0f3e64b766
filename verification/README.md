# Verified models of the audio and gralloc HALs

This project models two parts of the device's hardware abstraction layer and proves what they are
relied on for.

**The echo-reference pipeline** (`hal/audio`).  The playback thread equalises a buffer in place, plays
it, and hands the same bytes to the echo canceller through two queues: one of audio, one with a
timestamp record per packet.  The capture thread takes reference audio from the first and works out its
time from the second.  The only link between the two is a signed byte counter.

- `AecQueues`, `AecRuns`: the two queues against a specification queue in which every byte carries its
  packet; conservation and exact times over every run, also with the write split into its two steps.
- `ReferenceAudio`: the in-place downmix, the widening to 32 bits and the buffer sizes.
- `AecProcess`: `process_aec` as a step of the device; what it does to the buffer and the queues.
- `DeviceRuns`: runs of the device, with its streams opened and closed and the reference also read as a
  stream of its own: which runs use FIFOs that were released, and when no stale audio is used as reference.
- `DeviceTimes`: the times that such runs report, against a device that has the specification queue.
- `AecDevice`: `struct aec_t` as a class, its functions as methods proved against the modules above.
- `FirFilter`: the block-streaming equaliser against convolution of the whole stream.
- `SpeakerPath`: `out_write`, and what the canceller hears over a stretch of playback.
- `AudioLocks`: the four kinds of mutex, for any number of threads running the entry points.

**The gralloc format and layout engine** (`hal/gralloc`).

- `FormatWord`: the 64-bit format word, its 32-bit packing and its decoding.
- `FormatSelect`, `FormatMasks`: the choice of a word from capabilities, as functions on sets of flags
  and step by step on 64-bit masks.
- `SelectionByBits`: that choice, read off the bits of usage and masks alone.
- `BufferAllocation`: allocation types, strides, sizes, AFBC headers and layers of one descriptor.
- `LayoutTable`: these, format by format and bit by bit: strides are least multiples, sizes are sums of
  planes.
- `PixelRoom`: which sizes have room for the pixels of their format.
- `LayoutsCompared`, `BatchAllocation`: several descriptors at once, and when that matters.
- `BufferAccess`: the two lock calls that derive the plane layout anew.
- `FramebufferSlots`, `HandleReference`, `SharedBacking`: page flipping, reference counts, and memory
  for several buffers at once.

`Arith`, `Bits`, `Samples`, `Options` and `Errno` hold what these share.

## What the code does that its names and comments do not say

Most of these are lemmas that give the exact condition under which the expected property does hold,
each with a lemma at an input for which it does not.

- Closing and reopening the output keeps `read_write_diff_bytes`.  The queues are in step afterwards if
  and only if it was zero (`SwitchInStepExactly`, `ReopenAfterPartOfPacket`).  Any flush repairs them, and
  the times of a run are exact if and only if none is read before (`TimesAreExactly`,
  `UncleanSwitchMisdates`).
- Closing the output releases the FIFOs and keeps the pointers to them.  Opening the microphone then
  flushes what was released.  A run does so, or writes a packet with no output open, exactly as
  `RunStraysExactly` and `ReleasedExactly` say; no read and no buffer processed ever does.
- A reader that runs between the two FIFO writes of a packet can take audio whose record is not there
  yet, and a flush there drops audio whose record still comes.  These are the only two ways to lose count
  (`SplitConservesExactly`, `ReaderOvertakesRecord`, `FlushOvertakesRecord`).
- A write of less than a frame queues a record of no bytes, and the next byte is given its time
  (`EmptyWriteMisdatesNextAudio`, `ExactUnlessEmptyHead`).
- A read of the echo reference does not flush, so that it can take audio from before the speaker was idle
  (`EchoReadCanBeStale`).  All such reads are fresh if and only if the FIFO holds nothing older or the
  output is closed (`EchoReadsFreshExactly`); for `process_aec` a flush before the next call is enough
  (`ReferencesFreshExactly`).
- With a filter per channel and an odd number of channels above one, the second filter of the last pair
  lies past the coefficient array (`CoefficientsSufficeExactly`, `ThirdFilterHasNoPair`).
- The flag for private formats is a negative int, so that a usage takes the private path if and only if
  it has any bit from 31 up (`PrivateFormatBits`, `PrivatePathExactly`, `HighBitTakesPrivatePath`).
- The allocation type is not reset between the descriptors of a batch: a buffer without compression that
  comes after one with is laid out as if compressed (`PlainAfterCompressed`).  With pixels in it, that is
  another layout for all but some 4:2:0 buffers (`BatchIsIndependentExactly`, `Nv12AfterCompressed`), and
  the only one that a plain `YUV422_8BIT` buffer can get (`Yuv422AfterCompressed`).
- Y8 and Y16 decode, and no layout exists for them (`GreyNeverAllocates`, `RecognisedExactly`).
- A private format can combine split blocks with tiled headers, which allocation then rejects
  (`PrivateFormatCanBeRejected`).
- The 10-bit 4:2:0 AFBC layout counts header entries for the unaligned height (`TenBitEntriesExactly`,
  `EntriesMissingAt8`) and sizes the body by half the height, rounded down, which for some odd heights is
  a row short (`TenBitBodyExactly`, `BodyLacksRowAt33`).  The headers make good for it in the size unless
  there is only one row (`TenBitSizeExactly`, `SingleRowWithoutRoom`).
- The body offset that `init_afbc` writes is the real one only if alignment adds no whole block and the
  headers need no padding (`BodyOffsetExactly`, `BodyOffsetWrongAt16`).  With tiled headers, formats of
  header layout 0 get no offset at all (`TiledHeadersMislead`, `TiledOffsetWrongAt1024`).
- The layout of camera formats can fail, and the failure is ignored: the buffer keeps whatever size its
  descriptor had (`FailsUnnoticedExactly`, `CameraRoomExactly`, `Raw12WithoutRoom`).
- The requested size that a handle reports is right only for dimensions of 16 bits
  (`RequestedSizeExactly`, `RequestedSizeLost`).
- A handle that is retained after its count fell to 0 is not mapped again (`DisciplineExactly`,
  `RetainedAfterLastRelease`).
- An owner's last release that may not free leaves the buffer, and further releases are refused.  It is
  freed if and only if some release that may free takes a count from 1 to 0, for which the owner has to
  retain it again (`FreedExactly`, `ReleaseAtZeroIsRefused`, `RetainedAgainFrees`).
- When buffers share memory and a `dup` fails before the turn of the largest buffer, one file descriptor
  stays open (`IonAllocate`, `FailedDupKeepsOne`).

## Model

| member | source | states |
|---|---|---|
| `AecQueues.ConservationInBytes` | hal/audio/audio_aec.c:303-323 | The abstraction is sound exactly when the bytes promised by the queued records, and by a record still to come, are the unread bytes plus `read_write_diff_bytes` |
| `AecQueues.FastForwardUnread` | hal/audio/audio_aec.c:351-368 | Popping records moves on in the same specification queue and loses no byte; the loop ends with the counter not positive or the FIFO empty |
| `AecQueues.AdvanceUnread` | hal/audio/audio_aec.c:325-369 | Past the early return, accounting for n bytes drops exactly the first n byte descriptions |
| `AecQueues.ReadKeepsConservation` | hal/audio/audio_aec.c:325-369 | A read with its timestamp keeps the queues in step, a half-done write included |
| `AecQueues.ReadConservesExactly` | hal/audio/audio_aec.c:339-346 | A read keeps the queues in step if and only if it does not both take audio and find no timestamp |
| `AecQueues.Locate` | hal/audio/audio_aec.c:325-369 | The record, and the place in it, of the byte at a given position of all that the records describe |
| `AecQueues.TimedAtFirstUnread` | hal/audio/audio_aec.c:329-349 | The code picks the record and offset of the first unread byte if and only if the guard `TimeIsExact` holds |
| `AecQueues.TimespecToUsec` | hal/audio/audio_aec.c:93-95 | The time in nanoseconds over 1000, rounded down |
| `AecQueues.ReportedTime` | hal/audio/audio_aec.c:325-349 | Under that guard the reported time is the stamp of the packet of the first byte read, in whole microseconds, and as many more as fit the bytes before it in that packet: `d * rate <= 1000000 * bytes < (d + 1) * rate` |
| `AecQueues.TimesByteOnce` | hal/audio/audio_aec.c:325-349 | No byte has two such times |
| `AecRuns.PacketAppends` | hal/audio/audio_aec.c:303-323 | A packet write appends the accepted bytes, each with its packet and place, to the specification queue |
| `AecRuns.StepKeepsInvariant` | hal/audio/audio_aec.c:130-144 | Every packet, read and flush keeps the invariant and acts on the specification queue as specified |
| `AecRuns.RunConserves` | hal/audio/audio_aec.c:303-369 | Two-queue conservation over every run: the counter stays between minus the current packet and zero, queued bytes equal unread bytes plus the counter, and neither "no new timestamps" nor the break at the end of the FIFO is reached |
| `AecRuns.RunTimesAreExact` | hal/audio/audio_aec.c:325-369 | In every run of non-empty packets, each reported time is that of the first byte of the specification queue, by the stamp of its packet and its place there |
| `AecRuns.ExactUnlessEmptyHead` | hal/audio/audio_aec.c:311-318 | Within the invariant a time is exact unless the record at the head has no bytes |
| `AecRuns.EmptyWriteMisdatesNextAudio` | hal/audio/audio_aec.c:311-318 | Runs in which that happens: a write of less than a frame, then any audio, of which any part is read |
| `AecRuns.TimestampQueueFits` | hal/audio/audio_aec.c:262-273 | With full-period writes the records fit their FIFO whenever the audio fits its own |
| `AecRuns.SplitConservesExactly` | hal/audio/audio_aec.c:309-318 | With audio and record as separate steps, a step keeps conservation, the pending record counted, if and only if it is harmless |
| `AecRuns.SplitRunConserves` | hal/audio/audio_aec.c:309-318 | So does every run of harmless steps |
| `AecRuns.SplitStepRefines` | hal/audio/audio_aec.c:309-318 | Every harmless split step acts on the specification queue: audio appends its packet's bytes, its record adds nothing, a read drops what it takes, a flush empties |
| `AecRuns.QuietTimesAreExact` | hal/audio/audio_aec.c:325-369 | Over every harmless split run of non-empty writes, so is that of each read made with no write half done and no positive counter |
| `AecRuns.ReaderOvertakesRecord` | hal/audio/audio_aec.c:339-346 | Runs in which the early return loses count: any packet, any part of it read before its record lands |
| `AecRuns.FlushOvertakesRecord` | hal/audio/audio_aec.c:130-144 | Runs in which a flush between the two writes of any packet does |
| `AecRuns.ReopenConservesExactly` | hal/audio/audio_aec.c:154-163 | Reopening the output keeps the queues in step if and only if the counter was zero |
| `AecRuns.ReopenAfterPartOfPacket` | hal/audio/audio_aec.c:154-163 | Runs after which it was not: any part of any packet is read |
| `AecRuns.FlushRestores` | hal/audio/audio_aec.c:130-144 | A flush puts the queues in step from any state |
| `ReferenceAudio.AverageNeedsNoClamp` | hal/audio/audio_aec.c:109-116 | The clamp never changes an average, and the sum fits an int32 for up to 65535 channels |
| `ReferenceAudio.SumOfChange` | hal/audio/audio_aec.c:111-114 | Each sample counts once in the sum of a frame |
| `ReferenceAudio.DownmixIsAverage` | hal/audio/audio_aec.c:109-116 | Sample i of the reference is the sum of frame i over the number of channels, rounded toward zero |
| `ReferenceAudio.AccumulateFrame` | hal/audio/audio_aec.c:111-114 | The sum over the channels of one frame |
| `ReferenceAudio.MixFrame` | hal/audio/audio_aec.c:109-116 | One frame of it, in place: the average is written, frames not yet read are kept |
| `ReferenceAudio.DownmixInPlace` | hal/audio/audio_aec.c:105-117 | Slot i becomes the average of the original frame i although source and destination are one array; the rest is untouched |
| `ReferenceAudio.GetReferenceAudioInPlace` | hal/audio/audio_aec.c:97-118 | Only a mono reference of multichannel audio is mixed down, else nothing changes |
| `ReferenceAudio.WidenTo32` | hal/audio/audio_aec.c:431-440 | Every sample moves to the upper half of its 32-bit slot, and no other slot changes |
| `ReferenceAudio.SizesExactly` | hal/audio/audio_aec.c:471-498 | The buffers and the read in numbers: samples of a period, the most frames that the request scales to, 2 bytes for each sample at the speaker's rate |
| `ReferenceAudio.BuffersSuffice` | hal/audio/audio_aec.c:379-440 | Within the channel bounds the FIFO read, the downmix, the resampler's reads and the widening stay inside the buffers, for every period, read and pair of rates |
| `ReferenceAudio.BoundsNeeded` | hal/audio/audio_aec.c:468-498 | Outside the bounds some configuration overruns a buffer |
| `ReferenceAudio.BuffersSufficeExactly` | hal/audio/audio_aec.c:468-498 | The reference buffers suffice for all configurations with given channel counts if and only if ref² ≤ mic·spk and ref ≤ 2·mic |
| `AecProcess.WaitStopsAtFirst` | hal/audio/audio_aec.c:389-404 | Waiting ends at the first poll that finds enough audio |
| `AecProcess.WaitTimesOut` | hal/audio/audio_aec.c:389-404 | It times out when none of the 81 polls does; what arrives after the last is queued but not looked at |
| `AecProcess.ReadsExactly` | hal/audio/audio_aec.c:610-639 | A call reads if and only if it is set up, the speaker runs, there is audio once a flush after idleness is done, and one of 81 polls finds enough; and it takes the first bytes of what the first such poll found |
| `AecProcess.ProcessReturns` | hal/audio/audio_aec.c:580-669 | -EINVAL exactly without setup or when the canceller fails on a reference of a plausible time, -ENOMEM exactly when it waits in vain, else 0 |
| `AecProcess.NextCallContinues` | hal/audio/audio_aec.c:610-669 | After a cancellation the next call goes on with the rest of the audio |
| `AecProcess.OnlyQueuesChange` | hal/audio/audio_aec.c:606-669 | A call changes the queues and what it saw of the speaker, and nothing else; the queues are flushed first exactly after a call that saw it idle |
| `AecProcess.ProcessKeepsQueues` | hal/audio/audio_aec.c:593-669 | A call keeps the two queues in step, packets arriving meanwhile included, and hands the canceller the exact time of its first reference byte |
| `DeviceRuns.StraysExactly` | hal/audio/audio_aec.c:130-163 | Of all events only a packet with no output open, and opening the microphone on released FIFOs, reach FIFOs that are not there |
| `DeviceRuns.RunStraysExactly` | hal/audio/audio_aec.c:130-163 | A run does so if and only if one of these events comes after openings and closings of the output that leave none there |
| `DeviceRuns.ReleasedExactly` | hal/audio/audio_aec.c:154-163 | From the start the FIFOs are released ones if and only if an output was opened, then closed, and none opened since |
| `DeviceTimes.WaitQueued` | hal/audio/audio_aec.c:389-404 | Polling the FIFO while packets arrive is waiting on the specification queue, result and queue alike, in step or out of step |
| `DeviceTimes.SwitchInStepExactly` | hal/audio/audio_aec.c:154-163 | Opening or closing the output leaves the FIFOs in step if and only if the counter was zero |
| `DeviceTimes.StepSimulates` | hal/audio/audio_aec.c:573-669 | Every event of the device that does not read out of step does to FIFOs and counter what the specified device does to its one queue, and reports its time |
| `DeviceTimes.ReadsOutOfStepExactly` | hal/audio/audio_aec.c:325-349 | An event that reads out of step reports a time before 0, which no byte has |
| `DeviceTimes.TimesAreExactly` | hal/audio/audio_aec.c:325-669 | Over every run that does not use released FIFOs, all times given to the canceller and to readers of the echo reference are those of the bytes that the specified device reads first if and only if every event that reads starts in step or flushes first |
| `DeviceTimes.CleanSwitchesSuffice` | hal/audio/audio_aec.c:154-163 | That is so if no output is opened or closed while a packet is half read |
| `DeviceTimes.UncleanSwitchMisdates` | hal/audio/audio_aec.c:154-163 | From any device in the middle of a packet: open an output, write a packet, read part of it, and the time is wrong |
| `DeviceRuns.ReferencesFreshExactly` | hal/audio/audio_aec.c:573-669 | The canceller's reference bytes are all recent, in every later run whose packets are, if and only if the queue holds only recent bytes, or the next call flushes it, or a stream is not open |
| `DeviceRuns.NoStaleReference` | hal/audio/audio_aec.c:606-669 | From a device that flushes first or is empty, no byte written before is ever used by the canceller |
| `DeviceRuns.NoStaleReferenceAfterIdle` | hal/audio/audio_aec.c:610-623 | After a call that saw the speaker idle, nor is any byte written before the next call |
| `DeviceRuns.EchoReadsFreshExactly` | hal/audio/audio_hw.c:663-695 | The bytes read as echo reference are all recent, in every later run whose packets are, if and only if the queue holds only recent bytes or the output is closed |
| `DeviceRuns.EchoReadCanBeStale` | hal/audio/audio_hw.c:663-695 | A device that would flush before the next call, and whose echo reads take what the FIFO held before the speaker was idle |
| `AecDevice.DownmixPrefix` | hal/audio/audio_aec.c:105-117 | The downmix depends only on the frames it mixes |
| `AecDevice.Le16` | hal/audio/audio_aec.c:406 | The bytes of the FIFO are little-endian samples |
| `AecDevice.Aec.constructor` | hal/audio/audio_aec.c:448-517 | Buffers as sized by the init calls, empty queues in step |
| `AecDevice.Aec.SetSpkRunning` | hal/audio/audio_aec.c:146-148 | Sets that flag and nothing else |
| `AecDevice.Aec.FlushAecFifos` | hal/audio/audio_aec.c:130-144 | Both queues and the counter are reset, and nothing else changes |
| `AecDevice.Aec.DestroyAecReferenceConfig` | hal/audio/audio_aec.c:154-163 | An open output: no queues, a cleared current record, flags off, the same counter; else nothing |
| `AecDevice.Aec.InitAecReferenceConfig` | hal/audio/audio_aec.c:249-289 | What is open is closed first; new queues, the same counter |
| `AecDevice.Aec.InitAecMicConfig` | hal/audio/audio_aec.c:520-522 | The queues are flushed, provided that they were not released |
| `AecDevice.Aec.WriteToReferenceFifo` | hal/audio/audio_aec.c:303-323 | Appends the accepted audio and a record of as many bytes; -ENOMEM when not all was taken |
| `AecDevice.Aec.SkipRecords` | hal/audio/audio_aec.c:350-368 | The loop that pops the records of audio already read, as specified by FastForward |
| `AecDevice.Aec.GetSpkTimestamp` | hal/audio/audio_aec.c:325-369 | Both branches and the early return refine the specified read of a timestamp |
| `AecDevice.Aec.TakeArrivals` | hal/audio/audio_aec.c:303-323 | The packets that arrive during a millisecond, in order |
| `AecDevice.Aec.WaitForAudio` | hal/audio/audio_aec.c:389-404 | The polling loop refines the specified wait, -ETIMEDOUT included |
| `AecDevice.Aec.ReadSpkFifo` | hal/audio/audio_aec.c:406 | Exactly the first bytes leave the queue, as little-endian samples in the playback buffer |
| `AecDevice.Aec.ConvertReference` | hal/audio/audio_aec.c:411-440 | The 32-bit reference is the downmix, or the audio itself, or the resampler's output, widened |
| `AecDevice.Aec.SizesFit` | hal/audio/audio_aec.c:379-386 | The buffers as allocated hold every read of at most a period |
| `AecDevice.Aec.GetReferenceSamples` | hal/audio/audio_aec.c:371-445 | The whole call: queues, time, reference and every error code |
| `AecDevice.Aec.EchoRead` | hal/audio/audio_hw.c:663-695 | Queues, time and samples of a read of the echo reference; silence when the speaker does not run, the read fails or no time is found |
| `AecDevice.Aec.CheckDivergence` | hal/audio/audio_aec.c:639-640 | The canceller is skipped if and only if a time is missing or the two are more than 200 ms apart |
| `AecDevice.Aec.Cancel` | hal/audio/audio_aec.c:639-662 | A flush when the times diverged, else the canceller's output and its status |
| `AecDevice.Aec.RunCanceller` | hal/audio/audio_aec.c:627-662 | From reading the reference to the canceller's status, with the divergence check between |
| `AecDevice.Aec.ProcessRunning` | hal/audio/audio_aec.c:617-662 | With the speaker running: the flush after an idle speaker, the check for an empty queue, and the canceller |
| `AecDevice.Aec.Finish` | hal/audio/audio_aec.c:664-672 | After an error the raw signal is put back and the queues are empty; without one nothing changes |
| `AecDevice.Aec.ProcessAec` | hal/audio/audio_aec.c:573-669 | The method leaves device, buffer and return value as the specified step does, and no byte past the audio changes |
| `FirFilter.CoefficientsSufficeExactly` | hal/audio/fir_filter.c:107-150 | All coefficient reads of pairs of channels are in bounds if and only if filters per channel come with one channel or an even number |
| `FirFilter.ThirdFilterHasNoPair` | hal/audio/fir_filter.c:107-150 | A design of three channels for which they are not |
| `FirFilter.BlockIsConvolution` | hal/audio/fir_filter.c:101-154 | One block continues the convolution where the stream so far left off, and the history moves on |
| `FirFilter.OutputIsCausal` | hal/audio/fir_filter.c:126-134 | An output does not change when the stream grows |
| `FirFilter.HistoryOfStream` | hal/audio/fir_filter.c:152-153 | However the stream is cut up, the history is its end |
| `FirFilter.StreamingIsConvolution` | hal/audio/fir_filter.c:94-154 | After a reset, for any sequence of blocks, the output is the convolution of the whole stream |
| `FirFilter.BoundariesDoNotMatter` | hal/audio/fir_filter.c:101-154 | Two ways to cut a stream into blocks give the same output |
| `FirFilter.DotBounds` | hal/audio/fir_filter.c:126-134 | The extremes of a partial sum |
| `FirFilter.WorstInputIsWorst` | hal/audio/fir_filter.c:126-134 | An input that reaches them |
| `FirFilter.HeadroomExactly` | hal/audio/fir_filter.c:114-134 | No accumulator leaves int32, on any input and at any tap, if and only if the filter has headroom |
| `FirFilter.BoundedNormHasHeadroom` | hal/audio/fir_filter.c:114-134 | Coefficients of a total magnitude up to 65535 have headroom |
| `FirFilter.OutputIsExact` | hal/audio/fir_filter.c:124-143 | With headroom the output r is the exact sum over 2^15, rounded down: `0x8000 * r <= sum < 0x8000 * (r + 1)`, or the nearest bound if that does not fit 16 bits |
| `FirFilter.SumsAreWeighted` | hal/audio/fir_filter.c:107-150 | The sum is 0 for silence, and a change of one sample changes it by that change times the coefficient of its channel as many places on as the sample lies frames before |
| `FirFilter.ImpulseResponse` | hal/audio/fir_filter.c:107-150 | One sample puts out the coefficients of its channel, one frame after the other, scaled by it, and nothing anywhere else |
| `FirFilter.HalfTapHalves` | hal/audio/fir_filter.c:139-141 | A single tap of 0x4000 halves every sample, rounded down |
| `FirFilter.Filter.constructor` | hal/audio/fir_filter.c:34-83 | A work buffer of the right size, with silence as history |
| `FirFilter.Filter.Reset` | hal/audio/fir_filter.c:94-99 | The history becomes silence |
| `FirFilter.Filter.Accumulate` | hal/audio/fir_filter.c:113-134 | The loop over taps computes both sums in 32-bit arithmetic, within the work buffer |
| `FirFilter.Filter.FilterSample` | hal/audio/fir_filter.c:113-140 | The one or two outputs of a pair of channels, and nothing else, are written |
| `FirFilter.Filter.FilterPair` | hal/audio/fir_filter.c:111-144 | All samples of a pair of channels |
| `FirFilter.Filter.FilterChannels` | hal/audio/fir_filter.c:110-150 | All samples of all channels |
| `FirFilter.Filter.LoadBlock` | hal/audio/fir_filter.c:104-105 | The block goes behind the history |
| `FirFilter.Filter.KeepHistory` | hal/audio/fir_filter.c:152-153 | The last frames become the history |
| `FirFilter.Filter.ProcessInterleaved` | hal/audio/fir_filter.c:101-154 | The output is the block's output from the history, also when it overwrites the input, and the history moves on |
| `SpeakerPath.DecodeEncode` | hal/audio/audio_hw.c:398-411 | Samples written as bytes and read back are the same samples |
| `SpeakerPath.EncodedPlaces` | hal/audio/audio_hw.c:398-411 | Sample i is bytes 2i and 2i + 1, the low one first |
| `SpeakerPath.StreamOut.DoOutputStandby` | hal/audio/audio_hw.c:285-299 | Standby resets the equaliser and tells the canceller |
| `SpeakerPath.StreamOut.OutWrite` | hal/audio/audio_hw.c:369-425 | The buffer is equalised in place, played, counted and handed to the reference as the same bytes; a stream that does not start changes nothing |
| `SpeakerPath.HeardIsStreamOutput` | hal/audio/audio_hw.c:398-411 | Bytes read and bytes queued are together the output of the equaliser, in order |
| `SpeakerPath.ReferenceIsEqualisedStream` | hal/audio/audio_hw.c:398-411 | What the canceller hears is the convolution of all that was written, byte for byte |
| `AudioLocks.StartStreamDisciplined` | hal/audio/audio_hw.c:206-240 | The retries open a closed device, close only what they opened, and give up with it closed |
| `AudioLocks.StartsTryHundredTimes` | hal/audio/audio_hw.c:217-235 | A call that starts a stream opens its device a hundred times at most, on the path on which every try fails |
| `AudioLocks.OutputsTell` | hal/audio/audio_hw.c:285-313 | Every change of an output's standby is followed at once by locking the echo canceller |
| `AudioLocks.OutWriteDisciplined` | hal/audio/audio_hw.c:384-417 | `out_write` locks in rank order, uses the device only under the stream's lock and restores each lock's invariant |
| `AudioLocks.OutStandbyDisciplined` | hal/audio/audio_hw.c:285-313 | So does `out_standby` |
| `AudioLocks.OutSetParametersDisciplined` | hal/audio/audio_hw.c:333-343 | So does `out_set_parameters` |
| `AudioLocks.InReadDisciplined` | hal/audio/audio_hw.c:717-767 | So does `in_read` |
| `AudioLocks.InStandbyDisciplined` | hal/audio/audio_hw.c:591-615 | So does `in_standby` |
| `AudioLocks.EntryPointsDisciplined` | hal/audio/audio_hw.c:285-1007 | So does every entry point, to its last unlock |
| `AudioLocks.StepKeepsInv` | hal/audio/audio_hw.c:369-425 | Any step of any thread keeps the discipline of all threads, mutual exclusion and the invariants of free locks |
| `AudioLocks.NoCircularWait` | hal/audio/audio_hw.c:285-1007 | No reachable state of any number of threads has a circular wait |
| `AudioLocks.DeadlockFree` | hal/audio/audio_hw.c:285-1007 | Every thread inside an entry point can step or waits, through a chain of holders, for one that can |
| `AudioLocks.LocksProtectStreams` | hal/audio/audio_hw.c:206-240 | A PCM device is used and closed only while open, opened only while closed, always under its lock, and started and stopped only under the device lock too; a free stream is in standby exactly when its device is closed |
| `FormatWord.UnwrapWrap` | hal/gralloc/mali_gralloc_formats.h:136-186 | Unwrapping restores base and modifiers of a wrapped format if and only if the format is wrappable |
| `FormatWord.WrapInjective` | hal/gralloc/mali_gralloc_formats.h:136-161 | Packing loses nothing of wrappable formats |
| `FormatWord.UnwrapByBits` | hal/gralloc/mali_gralloc_formats.h:163-186 | Bits 16, 17, 19 and 24 of a packed int are the modifiers of bits 32, 33, 35 and 48; the low half is the format, three codes standing for YV12, Y8 and Y16 |
| `FormatWord.ClashesExactly` | hal/gralloc/mali_gralloc_formats.cpp:339-346 | The bit trick rejects a word if and only if it has two exclusive modifiers |
| `FormatWord.DecodesExactly` | hal/gralloc/mali_gralloc_formats.cpp:339-390 | A word decodes if and only if it has at most one of them and a recognised base format; it keeps its modifiers over the mapped format |
| `FormatWord.DecodedIsCanonical` | hal/gralloc/mali_gralloc_formats.cpp:321-394 | A decoded word is 0, or recognised with at most one exclusive modifier; decoding it again changes nothing; of a type that is neither, nothing decodes |
| `FormatSelect.FlagOfAnd` | hal/gralloc/mali_gralloc_formats.h:203-214 | Masking a mask masks each capability flag |
| `FormatSelect.ChoiceIsSound` | hal/gralloc/mali_gralloc_formats.cpp:177-319 | Every modifier chosen is advertised, within its runtime limits, by each block that takes part; split blocks come alone |
| `FormatSelect.ChoiceIsExact` | hal/gralloc/mali_gralloc_formats.cpp:177-319 | Each modifier is chosen if and only if producer and consumer negotiate and all participants advertise it, with the preference for split blocks between GPU and display |
| `FormatSelect.SelectionIsSound` | hal/gralloc/mali_gralloc_formats.cpp:604-681 | On the usage path the word is 0 or keeps the mapped base format, with only advertised modifiers and at most one exclusive; none when compression is ruled out |
| `FormatSelect.PrivateFormatBits` | hal/gralloc/mali_gralloc_usages.h:48 | The flag of private formats is any of the bits from 31 up |
| `FormatSelect.PrivatePathExactly` | hal/gralloc/mali_gralloc_formats.cpp:622-627 | A request by usage is decoded, not selected, if and only if the usage has one of them |
| `FormatSelect.HighBitTakesPrivatePath` | hal/gralloc/mali_gralloc_formats.cpp:622-627 | A usage without bit 31 for which that turns compression off |
| `SelectionByBits.CapabilityBit` | hal/gralloc/mali_gralloc_formats.h:203-214 | Which bit of a mask each capability is |
| `SelectionByBits.ProducerByBits` | hal/gralloc/mali_gralloc_formats.cpp:396-440 | Which usages make the camera, the video decoder and the GPU the producer, by bits |
| `SelectionByBits.ConsumerByBits` | hal/gralloc/mali_gralloc_formats.cpp:442-490 | Which make display, encoder and GPU the consumer |
| `SelectionByBits.SelectionExactly` | hal/gralloc/mali_gralloc_formats.cpp:604-681 | The word of a request by usage, exactly, from the bits of usage and masks: 0 if it is refused, and else the mapped format with each modifier if and only if compression is not off and all who take part offer it |
| `SelectionByBits.SelectionRespectsRoles` | hal/gralloc/mali_gralloc_formats.cpp:604-681 | Every modifier is one that the GPU, the display for framebuffers and for textures composed on a display with options, the encoder it is read by and the decoder it is written by can do; never for a camera, never for YUV that the GPU cannot write or the encoder cannot read |
| `FormatMasks.FlagsOfAnd` | hal/gralloc/mali_gralloc_formats.cpp:190-196 | And-ing masks intersects their flags |
| `FormatMasks.FlagsCleared` | hal/gralloc/mali_gralloc_formats.cpp:414 | Clearing the AFBC bits takes away exactly the AFBC flags |
| `FormatMasks.LargeBlocksCleared` | hal/gralloc/mali_gralloc_formats.cpp:418-420 | Clearing the bits of large blocks takes away exactly those |
| `FormatMasks.DetermineProducer` | hal/gralloc/mali_gralloc_formats.cpp:396-440 | On 64-bit masks: the producer, and a runtime mask without exactly the flags that the function on sets takes away |
| `FormatMasks.DetermineConsumer` | hal/gralloc/mali_gralloc_formats.cpp:442-490 | The consumer, and the runtime mask likewise |
| `FormatMasks.DetermineBestFormat` | hal/gralloc/mali_gralloc_formats.cpp:177-319 | And-ing 64-bit capability masks with runtime masks and or-ing in modifiers bit by bit gives the word of the chosen set of modifiers |
| `FormatMasks.Select` | hal/gralloc/mali_gralloc_formats.cpp:604-681 | The call as coded, on 64-bit masks and with its early exits, gives the word of the function that is proved sound, for the sets of flags of these masks |
| `BufferAllocation.Align` | hal/gralloc/gralloc_helper.h:42 | The least multiple of the base that is at least the value |
| `BufferAllocation.MacroAligns` | hal/gralloc/gralloc_helper.h:42 | For powers of two, unless the sum overflows, `(v + base - 1) & ~(base - 1)` on words of any width is `Align` |
| `BufferAllocation.MacroAlignsBases` | hal/gralloc/gralloc_helper.h:42 | So it is for all bases that the code aligns to |
| `BufferAllocation.RejectedExactly` | hal/gralloc/mali_gralloc_bufferallocation.cpp:919-950 | A word is rejected for its AFBC mode if and only if it has split blocks and tiled headers |
| `BufferAllocation.SelectedWordsAllocate` | hal/gralloc/mali_gralloc_bufferallocation.cpp:919-950 | A word selected by usage never is, and a format without compression stays uncompressed |
| `BufferAllocation.PrivateFormatCanBeRejected` | hal/gralloc/mali_gralloc_bufferallocation.cpp:931-936 | A private format that decodes and is rejected |
| `BufferAllocation.EntriesAreSuperblocks` | hal/gralloc/mali_gralloc_bufferallocation.cpp:174 | On aligned dimensions the header entries are w·h/256 exactly, one per superblock |
| `BufferAllocation.AfbcSizing` | hal/gralloc/mali_gralloc_bufferallocation.cpp:129-182 | Every compressed size is a header area plus a body, for all formats and modes |
| `BufferAllocation.AfbcHeaders` | hal/gralloc/mali_gralloc_bufferallocation.cpp:252-261 | The header area ends on the boundary the mode needs, and its entries are one per superblock, w·h/256 exactly, for all formats but 10-bit 4:2:0 |
| `BufferAllocation.TypeSuitsWord` | hal/gralloc/mali_gralloc_bufferallocation.cpp:919-950 | The aligned dimensions are multiples of the superblocks of the word's mode, and of 8 by 8 of them with tiled headers, and only then are headers aligned to 4096 |
| `BufferAllocation.TenBitEntriesExactly` | hal/gralloc/mali_gralloc_bufferallocation.cpp:704 | The entries of a 10-bit 4:2:0 buffer cover its superblocks if and only if the height is a multiple of a block's, or there is no width |
| `BufferAllocation.EntriesMissing` | hal/gralloc/mali_gralloc_bufferallocation.cpp:704 | Accepted buffers, of any width in multiples of 4, that have fewer entries than superblocks |
| `BufferAllocation.EntriesMissingAt8` | hal/gralloc/mali_gralloc_bufferallocation.cpp:704 | One of them, 16 by 8 pixels |
| `BufferAllocation.HeadersFit` | hal/gralloc/mali_gralloc_ion.cpp:70 | The headers that `init_afbc` writes lie in the header area and in the buffer, for all formats and modes |
| `BufferAllocation.InitAfbc` | hal/gralloc/mali_gralloc_ion.cpp:68-113 | Exactly that many headers are written, each the one of the layout |
| `BufferAllocation.HeaderWords` | hal/gralloc/mali_gralloc_ion.cpp:72-110 | The words behind the offset, by format and tiled headers |
| `BufferAllocation.BodyOffsetExactly` | hal/gralloc/mali_gralloc_ion.cpp:68-113 | For every format and mode: the first word of the headers says where the body really starts, modulo 2^32, if and only if the gap is a multiple of 2^32; there is no gap if and only if the pixels asked for and those allocated make as many whole blocks and these need no padding, and where the headers hold no offset only if there is no block |
| `BufferAllocation.NothingAddedExactly` | hal/gralloc/mali_gralloc_ion.cpp:70-71 | For all formats but 10-bit 4:2:0, as many blocks means that alignment adds nothing |
| `BufferAllocation.FewBlocksMislead` | hal/gralloc/mali_gralloc_ion.cpp:68-113 | Every buffer of 1 to 63 blocks has a wrong offset |
| `BufferAllocation.TiledHeadersMislead` | hal/gralloc/mali_gralloc_ion.cpp:78-82 | With tiled headers and header layout 0 the word is 0, which is wrong for every buffer of a block or more unless the header area is a multiple of 2^32 |
| `BufferAllocation.BodyOffsetWrongAt16` | hal/gralloc/mali_gralloc_ion.cpp:68-113 | 16 by 16 pixels of RGBA, or of 10-bit 4:2:0, are accepted with a wrong offset |
| `BufferAllocation.TiledOffsetWrongAt1024` | hal/gralloc/mali_gralloc_ion.cpp:78-82 | So are 1024 by 1024 pixels of RGBA with tiled headers |
| `BufferAllocation.LayersAreAligned` | hal/gralloc/mali_gralloc_bufferallocation.cpp:1158-1173 | Layers hold their size, do not overlap, stay inside the allocation, and those of AFBC start on 128 or 4096 bytes |
| `LayoutTable.PlainExactly` | hal/gralloc/mali_gralloc_bufferallocation.cpp:954-1148 | Every layout without compression: strides are the least multiples of the format's alignment that hold a row, the size is the sum of the planes, by formats' numbers |
| `LayoutTable.PlainAcceptedExactly` | hal/gralloc/mali_gralloc_bufferallocation.cpp:954-1148 | Which formats are accepted without compression |
| `LayoutTable.ModeByBits` | hal/gralloc/mali_gralloc_bufferallocation.cpp:919-950 | Block sizes and header boundaries, by the bits of word and usage |
| `LayoutTable.ModeRejectedExactly` | hal/gralloc/mali_gralloc_bufferallocation.cpp:931-936 | Which words are rejected for their mode, by bits |
| `LayoutTable.PackedExactly` | hal/gralloc/mali_gralloc_bufferallocation.cpp:103-182 | Every layout with compression: columns and rows are least multiples of blocks, headers are 16 bytes for each 256 pixels up to the boundary, and the size is these and the planes |
| `LayoutTable.PackedAcceptedExactly` | hal/gralloc/mali_gralloc_bufferallocation.cpp:954-1148 | Which formats, widths and modes are accepted with compression |
| `LayoutTable.LayersExactly` | hal/gralloc/mali_gralloc_bufferallocation.cpp:1158-1173 | The size is that of a layer times the layers, each of a compressed buffer filled up to its boundary |
| `LayoutTable.RecognisedExactly` | hal/gralloc/mali_gralloc_formats.cpp:357-390 | The formats that decode are those that have a layout, but for three, and Y8 and Y16 |
| `LayoutTable.GreyNeverAllocates` | hal/gralloc/mali_gralloc_bufferallocation.cpp:954-1148 | These two decode and are never allocated |
| `PixelRoom.Yuv420Holds` | hal/gralloc/mali_gralloc_bufferallocation.cpp:289-324 | An uncompressed 4:2:0 buffer holds 12 bits per pixel with either alignment |
| `PixelRoom.PX10Holds` | hal/gralloc/mali_gralloc_bufferallocation.cpp:454-493 | P010 and P210 buffers hold 24 and 32 |
| `PixelRoom.CameraHolds` | hal/gralloc/mali_gralloc_bufferallocation.cpp:821-881 | RAW16, RAW12, RAW10 and BLOB layouts that succeed hold 16, 12, 10 and 8 |
| `PixelRoom.FailsUnnoticedExactly` | hal/gralloc/mali_gralloc_bufferallocation.cpp:832-863 | The layout of a camera format fails exactly for RAW12 and RAW10 of a width not divisible by 4 and BLOB of a height other than 1 |
| `PixelRoom.CameraRoomExactly` | hal/gralloc/mali_gralloc_bufferallocation.cpp:1017-1029 | An accepted camera buffer has room for its pixels if and only if its layout does not fail, or the size its descriptor had before has room |
| `PixelRoom.Raw12WithoutRoom` | hal/gralloc/mali_gralloc_bufferallocation.cpp:1017-1029 | RAW12 of 6 by 2 pixels is accepted with no room |
| `PixelRoom.BodyHolds` | hal/gralloc/mali_gralloc_bufferallocation.cpp:129-422 | So does the body behind the headers of a compressed buffer |
| `PixelRoom.SizesHoldPixels` | hal/gralloc/mali_gralloc_bufferallocation.cpp:954-1148 | Every size has room for all bits of all pixels, for all formats, modes, alignments and dimensions, if and only if `HasRoom` says so, which is always but for failed camera layouts and single rows of compressed 10-bit 4:2:0 |
| `PixelRoom.TenBitBodyExactly` | hal/gralloc/mali_gralloc_bufferallocation.cpp:645-720 | The body of a compressed 10-bit 4:2:0 buffer has room for its pixels if and only if the build adds rows, the height is even, half of it is rounded up, or the aligned width makes good for the missing row |
| `PixelRoom.BodyLacksRow` | hal/gralloc/mali_gralloc_bufferallocation.cpp:645-720 | Accepted buffers, of any width in whole blocks, whose body lacks a row |
| `PixelRoom.BodyLacksRowAt33` | hal/gralloc/mali_gralloc_bufferallocation.cpp:645-720 | One of them, 16 by 33 pixels |
| `PixelRoom.TenBitSizeExactly` | hal/gralloc/mali_gralloc_bufferallocation.cpp:645-720 | Headers included there is room if and only if the build adds rows, there is not exactly one row, or the header area holds it |
| `PixelRoom.SingleRowWithoutRoom` | hal/gralloc/mali_gralloc_bufferallocation.cpp:645-720 | Accepted single rows without room |
| `BatchAllocation.Descriptor.Size` | hal/gralloc/mali_gralloc_bufferallocation.cpp:895-1173 | The fields of one descriptor, and the type handed on to the next |
| `BatchAllocation.SizeBuffers` | hal/gralloc/mali_gralloc_bufferallocation.cpp:893-1174 | Every descriptor before the first rejected one is filled in, later ones are untouched, -EINVAL if there is one |
| `BatchAllocation.ModeDecidesType` | hal/gralloc/mali_gralloc_bufferallocation.cpp:918-950 | What a word says of the type determines the update of the type |
| `BatchAllocation.AllowedExactly` | hal/gralloc/mali_gralloc_formats.cpp:150-170 | A buffer is large enough for compression if and only if it has three quarters of the display's pixels, where that is asked |
| `BatchAllocation.LoopMatchesExactly` | hal/gralloc/mali_gralloc_bufferallocation.cpp:887-950 | For any choice of words and layouts and from any type brought along: each descriptor gets what it would get alone, up to the first that would be rejected alone, if and only if every one of these without a mode fares with the type carried to it as without |
| `LayoutsCompared.CompressedRgbIsLarger` | hal/gralloc/mali_gralloc_bufferallocation.cpp:103-183 | Compression always makes an RGB buffer larger |
| `LayoutsCompared.CoincidesExactly` | hal/gralloc/mali_gralloc_bufferallocation.cpp:954-1148 | For all formats: with an AFBC type a buffer gets the layout it gets without, or is rejected either way, if and only if `Coincides`, an equation in width, height and alignments, holds |
| `LayoutsCompared.SeldomCoincides` | hal/gralloc/mali_gralloc_bufferallocation.cpp:954-1148 | For buffers with pixels that can be plain it holds only for 4:2:0 for hardware use with an odd number of 128-byte units to a row |
| `LayoutsCompared.CoincidesAt128` | hal/gralloc/mali_gralloc_bufferallocation.cpp:289-422 | It does hold for 4:2:0 of 128 by 16 pixels |
| `BatchAllocation.SameLayoutExactly` | hal/gralloc/mali_gralloc_bufferallocation.cpp:954-1173 | The same for a descriptor with layers |
| `BatchAllocation.BatchIsIndependentExactly` | hal/gralloc/mali_gralloc_bufferallocation.cpp:887-950 | A batch gives each descriptor what it would get alone, up to the first that would be rejected alone, if and only if each one of these without a mode comes before those with, or its layout coincides with that of the type carried to it |
| `BatchAllocation.PlainFirstExactly` | hal/gralloc/mali_gralloc_bufferallocation.cpp:887-950 | It does if those without a mode come first; and for descriptors that can be allocated alone and whose layouts never coincide only if |
| `BatchAllocation.PlainAfterCompressed` | hal/gralloc/mali_gralloc_bufferallocation.cpp:887-950 | Two buffers of any size for which it does not |
| `BatchAllocation.Nv12AfterCompressed` | hal/gralloc/mali_gralloc_bufferallocation.cpp:887-950 | Two buffers in the wrong order for which it does |
| `BatchAllocation.Yuv422AfterCompressed` | hal/gralloc/mali_gralloc_bufferallocation.cpp:887-950 | A buffer of any size that is rejected alone and accepted after a compressed one |
| `BatchAllocation.RequestedSizeExactly` | hal/gralloc/mali_gralloc_bufferallocation.cpp:905 | Width and height survive the packing if and only if both fit 16 bits |
| `BatchAllocation.RequestedSizeLost` | hal/gralloc/mali_gralloc_bufferallocation.cpp:905 | A width of 65536 reads as 0 and changes the height |
| `BufferAccess.PrivateHandle.LockYcbcr` | hal/gralloc/mali_gralloc_bufferaccess.cpp:72-166 | Which requests are served and where the planes are |
| `BufferAccess.PrivateHandle.LockFlex` | hal/gralloc/mali_gralloc_bufferaccess.cpp:248-401 | The same requests are served, and every sample of every component has the address that the other call gives it |
| `BufferAccess.LockableExactly` | hal/gralloc/mali_gralloc_bufferaccess.cpp:94-150 | The formats and usages that are served, by their numbers |
| `BufferAccess.SamplePlaces` | hal/gralloc/mali_gralloc_bufferaccess.cpp:99-158 | The address of every sample of every component, by format |
| `BufferAccess.PartsFit` | hal/gralloc/mali_gralloc_bufferallocation.cpp:289-324 | The planes follow each other and end within the allocated size |
| `BufferAccess.LockedSamplesAreDistinctBytes` | hal/gralloc/mali_gralloc_bufferaccess.cpp:99-158 | Every Y, Cb and Cr sample of a locked buffer is a byte of it and no two are the same byte, for every size and either alignment |
| `FramebufferSlots.BitsOfLowSlots` | hal/gralloc/framebuffer_device.cpp:490 | The bits of the mask 2^k - 1 are those below k |
| `FramebufferSlots.SlotsAreDisjoint` | hal/gralloc/framebuffer_device.cpp:455-502 | Attempt t gets screen t mod n, inside the mapping, and any n attempts in a row get disjoint screens |
| `FramebufferSlots.FramebufferModule.constructor` | hal/gralloc/framebuffer_device.cpp:376-377 | No slot is taken |
| `FramebufferSlots.FramebufferModule.TakeSlot` | hal/gralloc/framebuffer_device.cpp:455-502 | The mask stays of the form 2^k - 1, and the search gives the offset of attempt t |
| `HandleReference.DisciplineExactly` | hal/gralloc/mali_gralloc_reference.cpp:50-60 | A call keeps a client's memory mapped exactly while its count is positive if and only if it does not retain after the count fell to 0 and the mapping succeeds |
| `HandleReference.RetainReturns` | hal/gralloc/mali_gralloc_reference.cpp:37-79 | A retain returns 0 if and only if the process has the handle, or it is a framebuffer, or an ION buffer whose memory maps, which is mapped exactly when it is new to the process; else -EINVAL |
| `HandleReference.ReleaseReturns` | hal/gralloc/mali_gralloc_reference.cpp:81-158 | A release returns -EINVAL exactly at a count of 0, and frees or unmaps exactly at a count of 1 |
| `HandleReference.RetainedAfterLastRelease` | hal/gralloc/mali_gralloc_reference.cpp:50-60 | Retain, release, retain ends with a count of 1 and no memory |
| `HandleReference.ImporterMapsOnce` | hal/gralloc/mali_gralloc_reference.cpp:37-158 | In every disciplined run an importer maps once and unmaps exactly when its releases match its retains |
| `HandleReference.DisciplinedRetainsSucceed` | hal/gralloc/mali_gralloc_reference.cpp:37-79 | Every retain of a disciplined importer returns 0 |
| `HandleReference.OwnerFreesOnce` | hal/gralloc/mali_gralloc_reference.cpp:81-158 | The allocating process frees once, exactly when releases are retains plus one |
| `HandleReference.FreedExactly` | hal/gralloc/mali_gralloc_reference.cpp:81-158 | Over any run in the allocating process the buffer is freed if and only if some release that may free takes the count from 1 to 0 |
| `HandleReference.ReleaseAtZeroIsRefused` | hal/gralloc/mali_gralloc_reference.cpp:94-119 | After a last release that may not free, releases are refused |
| `HandleReference.RetainedAgainFrees` | hal/gralloc/mali_gralloc_reference.cpp:94-119 | Retaining again and releasing frees it after all |
| `HandleReference.PrivateHandle.ReferenceRetain` | hal/gralloc/mali_gralloc_reference.cpp:37-79 | The new fields and the result of a retain |
| `HandleReference.PrivateHandle.ReferenceRelease` | hal/gralloc/mali_gralloc_reference.cpp:81-158 | The new fields and the result of a release |
| `SharedBacking.CheckBuffersSharable` | hal/gralloc/mali_gralloc_ion.cpp:372-415 | True if and only if all of several buffers have one heap and one set of flags |
| `SharedBacking.MaxDescriptorIndex` | hal/gralloc/mali_gralloc_ion.cpp:417-434 | The first of the largest buffers |
| `SharedBacking.ClosesShared` | hal/gralloc/mali_gralloc_ion.cpp:678-691 | Closing the handles made so far closes everything that was opened, except the allocation's own descriptor while its handle is not made |
| `SharedBacking.FailedDupKeepsOne` | hal/gralloc/mali_gralloc_ion.cpp:535-560 | Two buffers for which that descriptor stays open |
| `SharedBacking.IonModule.FreeInternal` | hal/gralloc/mali_gralloc_ion.cpp:678-691 | Exactly the descriptors of the handles are closed |
| `SharedBacking.IonModule.FillShared` | hal/gralloc/mali_gralloc_ion.cpp:511-573 | Handles on one store as large as the largest buffer, or what is left open on failure |
| `SharedBacking.IonModule.FillSeparate` | hal/gralloc/mali_gralloc_ion.cpp:574-621 | Handles on a store each, or nothing |
| `SharedBacking.IonModule.MapAll` | hal/gralloc/mali_gralloc_ion.cpp:623-653 | All buffers but the protected ones are mapped, or all descriptors are closed |
| `SharedBacking.IonModule.IonAllocate` | hal/gralloc/mali_gralloc_ion.cpp:485-654 | On success every buffer fits its memory, shared or not as decided; a failure leaves the open descriptors as they were, except in the one case named, where one more is open |

## Left out

- FirFilter.Filter.ProcessInterleaved: is not specified for filters per channel with an odd number of channels above one, where the source reads past the coefficient array; `CoefficientsSufficeExactly` states that condition.
- FramebufferSlots.FramebufferModule.TakeSlot: is for 2 to 31 buffers; with one the source allocates an ordinary buffer instead of flipping pages.
- AecRuns.RunTimesAreExact: requires that packets leave audio in the FIFO; `ExactUnlessEmptyHead` says what happens otherwise.
- DeviceTimes.TimesAreExactly: requires the same of the packets; and where a read is out of step the code converts a negative number to an unsigned one, which C leaves undefined and the model keeps negative.
- SharedBacking.IonModule.IonAllocate: takes the caller's array of handles to be empty at the start, as the clean-up after a failure relies on.
- AecDevice.Aec.ProcessAec: takes the results of the resampler and of the canceller as parameters, and the packets that the playback thread writes while it waits; within one call other interleavings of the two threads are those of the split runs of `AecRuns`.
- The numbers of HAL formats and usage flags are those Android publishes; `system/graphics.h` is not part of the repository.
- ALSA, mixer and routing, ioctl, mmap, dlopen, the ION and DMA-BUF interfaces: only their results appear, as parameters.
- Failures of `init_aec_reference_config` and `init_aec_mic_config`: only their success is an event of `DeviceRuns`.  What happens after a released FIFO is used is not modelled, only which runs do so.
- More than one output stream at a time.
- The inside of `audio_utils_fifo`: a queue that takes as much of a write as a parameter says; overwriting of unread audio is not modelled, nor the branch for a negative count, which the comparison of types never reaches.
- Floating point in `get_spk_timestamp`: exact rationals, rounded down.
- The NEON path of the equaliser; and a speaker equaliser is taken to have its stream's channel count and to be given no more frames at once than it was made for.
- Overflow of 32-bit products in the layout code: dimensions are unbounded naturals.
- How a call fails in `determine_format_capabilities`, and which flags a build sets: any capabilities are allowed.
- Whether the ION flags that `check_buffers_sharable` compares were set: they are taken as given.
- The attribute region, colour information and backing-store ids of handles; `mali_gralloc1_validate_buffer_size`; descriptor accessors; vsync; dumps; `hdmi_cec.c`; sensors; and everything outside the two directories.
