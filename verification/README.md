# SensorHost: a verified model of the stream, upload, recording and playback cores

SensorHost is the desktop host of an STM32 vibration sensor.  This project models the parts of it
that keep state over a byte stream or across threads, and proves what they promise for every input,
every cutting of a stream into chunks, every schedule of a link or a thread, and every run.

The modules follow the program:

| module | models |
|---|---|
| `Bytes`, `Arrays`, `Crc32`, `CrcCheckValue` | little-endian fields, the array searches, CRC-32/ISO-HDLC on binary digits, and its published check value |
| `IisClock`, `IisWords` | reconstruction of sample times, in exact half microseconds, and payloads built word by word |
| `Sdf1`, `Sdf1Wire`, `StreamParsing`, `Sdf1Encoder` | the SDF1 receiver as a function of the stream, its rules in the bytes of the wire, the cursor-driven object, and the encoders |
| `Demux`, `ReplyLines`, `OtaBridge` | the demultiplexer of reply lines and frames, its decision in the bytes of a line, and its arming in front of the receiver |
| `OtaCodec`, `OtaPackage` | OTAF frames and `.ota` packages |
| `OtaDevice`, `OtaUploader` | the device, an adversarial link, and the upload protocol |
| `Recorder`, `Recording` | the recorder's producer/writer queue, and the hand-over of deferred frames |
| `SampleStore`, `Envelope` | the pruned chunk store and the peak-preserving downsampler |
| `Playback` | the header-only index and the incremental decoder |

How the pieces fit:

* The receiver is specified in two layers.  `Sdf1.Cut` resynchronises byte by byte and cuts a stream
  into dropped bytes and CRC-valid candidates; `Sdf1.Digest` turns the pieces into frames, counters,
  sequence state and clock.  `StreamParsing.StreamParser.Feed`, which searches for the magic, moves a
  cursor and compacts once, is proved equal to that.  The demultiplexer has the same shape
  (`Demux.Split`), so the end-to-end theorem composes the two.
* CRC-32 is concrete.  One register round is proved injective and linear, so up to four adjacent
  bytes enter the register as one word; a message is sealed exactly when its register ends at one
  constant, and damage to any four adjacent bytes, the seal included, is always detected.
* The link of an upload is given by functions of time that say which frames arrive when and in what
  condition, and what each read returns.  A fact about every link is therefore a fact about every
  schedule: loss, repetition, delay, reordering, truncation, overwriting of up to four adjacent
  bytes, stale replies, and begin commands that arrive again.  On a link that only loses messages and
  answers, the upload is proved to succeed if and only if every exchange gets one attempt through
  within its retries.
* What a byte means is stated apart from the functions that read it: `Sdf1Wire`, `IisWords`, `ReplyLines`,
  `OtaCodec.OnWire` and `OtaPackage.Layout` give the formats as literal positions, sizes and codes, and
  the receivers are proved to accept and yield exactly what these say.
* The recorder's threads are interleaved at the granularity of its lock sections, in
  `Recorder.Step`; the object runs its writer at arbitrary points given by a schedule.

Where the code and its documentation differ, the model follows the code:

* `docs/PROTOCOL.md` gives the header size as fixed 28 while version 2 frames use 44, and candidates
  of other versions are taken with any header size from 28 to 256.
* `RawSessionRecorder.stop` says that it drains the queued chunks.  A chunk whose submission is under
  way when the sentinel is queued, or that is submitted before the writer closes, is accepted and
  never written.  `Recorder.StopWritesEverything` says exactly when this does not happen;
  `Recorder.LateSubmissionLost` exhibits it.
* `RawSessionRecorder.start` does not empty the queue.  A chunk left there goes into the next file and
  drives the byte count negative (`Recorder.StrandedChunkLeaks`).  A sentinel left there closes the next
  writer at once, and the whole next recording is lost without a failure being reported; a disk error
  in a write leaves one (`Recorder.DiskErrorStrandsSentinel`), and so does a second `stop` after one that
  timed out (`Recorder.SecondStopStrandsSentinel`).  `Recorder.StartSound` and `Recorder.RestartAfterStop`
  say exactly when a recorder may be started again.
* A reply line longer than the demultiplexer's line bound is lost under some cuttings of the stream;
  `Demux.ReplyDeliveredIffShort` gives the exact bound.
* Starting an OTA session over a residue that the previous one left behind drops that residue;
  `OtaBridge.ArmingLosesReply` exhibits the lost reply, and `OtaBridge.RunConserves` shows that the
  dropped bytes are exactly such residues and where every other byte and every reply line goes.
* `OtaUploader.upload` documents success as a staged image, but never compares the reported CRC with the
  manifest.  A begin command that arrives again resets the device; `OtaUploader.LateCommandStagesNothing`
  shows an empty image being staged and accepted behind it, and `OtaUploader.LateCommandHarmless` that
  such a command is harmless exactly while the device holds nothing.
* A frame that was sent again is answered twice.  If the first answer was late rather than lost, the next
  round hears the second one and the upload stops (`OtaUploader.LateAnswerDerails`).

## Model

| member | source | states |
|---|---|---|
| Crc32.BurstDetected | docs/PROTOCOL.md:31 | two messages that differ only within four adjacent bytes leave the CRC register in different states |
| Crc32.SealedIffResidue | docs/PROTOCOL.md:31 | a message ends with its own CRC if and only if the register run over all of it ends at one constant |
| Crc32.SealDetectsBurst | docs/PROTOCOL.md:31 | no sealed message becomes another sealed one by damage to four adjacent bytes, the CRC field included |
| CrcCheckValue.CheckValue | docs/PROTOCOL.md:31 | the CRC of the nine bytes `123456789` is the published check value 0xCBF43926 |
| IisClock.ExtendOneExact | src/sensor_host/protocol/sdf1.py:203-215 | one tick extension recovers the true count exactly when the counter moved less than 2^31 or did not wrap |
| IisClock.ExtendRecovers | src/sensor_host/protocol/sdf1.py:203-215 | every run of counts with steps under 2^31 is recovered from its low 32 bits, over any number of wraps |
| IisClock.ExtendRecoversFresh | src/sensor_host/protocol/sdf1.py:198-215 | from a fresh clock the run is recovered when the first count fits in 32 bits |
| IisClock.ArrayEqualsWalker | src/sensor_host/protocol/sdf1.py:217-263 | the searchsorted/bincount/cumsum reconstruction equals a sequential per-word walker on all tags and carried states |
| IisClock.LastSampleOnTimestamp | src/sensor_host/protocol/sdf1.py:238-242 | with acceleration words behind the last tag, the last sample falls exactly on the frame timestamp |
| IisClock.ProcessWalks | src/sensor_host/protocol/sdf1.py:217-263 | for every payload with an acceleration word: samples carry the walker's times and their own words, and the carry is one period past the last |
| IisWords.PayloadReads | src/sensor_host/protocol/sdf1.py:30-39 | a payload built word by word reads back as its tags, 32-bit tick counts and signed 16-bit triples, in order |
| IisWords.WordsReconstructed | src/sensor_host/protocol/sdf1.py:217-263 | every such payload yields exactly its triples in order, 75 half microseconds apart within a segment, segments 50 per tick apart, anchored at the frame timestamp or the carried clock |
| StreamParsing.IisTimestampReconstructor.ExtendTicks | src/sensor_host/protocol/sdf1.py:203-215 | the in-place loop computes the extension and leaves the extended state |
| StreamParsing.IisTimestampReconstructor.ProcessPayload | src/sensor_host/protocol/sdf1.py:217-263 | the object's samples and new clock are those of the specification |
| Sdf1.CutConserves | src/sensor_host/protocol/sdf1.py:341-434 | dropped bytes, candidates and the held rest are the input in order; the rest is under 3837 bytes |
| Sdf1.CutConcat | src/sensor_host/protocol/sdf1.py:328-435 | cutting a stream is cutting its front and then its rest with what was held |
| Sdf1.ChunkIndependence | src/sensor_host/protocol/sdf1.py:328-435 | for every stream, garbage included, and every cutting into chunks: same frames, counters, residue, last sequence and clock as one feed |
| Sdf1.Accounting | src/sensor_host/protocol/sdf1.py:341-434 | after any feeds, bytes fed equal bytes discarded plus CRC-valid candidates plus the buffer, which is under 3837 bytes |
| Sdf1.Census | src/sensor_host/protocol/sdf1.py:367-432 | each counter equals the number of pieces with its cause or content, over every run |
| Sdf1Wire.FrontJudged | src/sensor_host/protocol/sdf1.py:341-393 | from the bytes alone: when the receiver waits, drops a byte and for which reason, or takes a candidate of which size |
| Sdf1Wire.DeliveredIff | src/sensor_host/protocol/sdf1.py:394-484 | a sealed candidate of sound size is delivered if and only if it is one of the four types in a permitted version with its exact size, and carries its bytes field by field; otherwise exactly the counter of the failing rule rises |
| Sdf1Wire.DeliveredSession | src/sensor_host/protocol/sdf1.py:394-484 | what a delivered candidate does to counters, sequence state and clock |
| Sdf1Wire.WellFormedIff | src/sensor_host/protocol/sdf1.py:394-484 | the well-formed frames are exactly the sealed candidates of sound size that are delivered |
| Sdf1.FramesSurviveChunking | src/sensor_host/protocol/sdf1.py:328-435 | any concatenation of well-formed frames, cut anyhow, returns exactly those frames byte for byte with no error counted |
| Sdf1.GapExact | src/sensor_host/protocol/sdf1.py:320-326 | one sequence step counts its gap exactly when it is at most 2^31 long |
| Sdf1.GapsOverRun | src/sensor_host/protocol/sdf1.py:320-326 | over a climbing run the counted gaps are the missing numbers, across any number of wraps |
| Sdf1.DigestRecords | src/sensor_host/protocol/sdf1.py:425-430 | sequence state after any stream is the accounting of exactly the delivered sensor frames |
| Sdf1.SessionGaps | src/sensor_host/protocol/sdf1.py:320-326 | for a whole session of a climbing count, the gap counter is last minus first minus (frames minus one) |
| StreamParsing.FindParses | src/sensor_host/protocol/sdf1.py:342-351 | searching for the magic discards in one stride what byte-wise resynchronisation discards |
| StreamParsing.StreamParser.constructor | src/sensor_host/protocol/sdf1.py:282-287 | a new parser has an empty buffer, every counter at zero, no sequence and a fresh clock |
| StreamParsing.StreamParser.ResetSession | src/sensor_host/protocol/sdf1.py:299-304 | counters, buffer, sequence and clock are back to fresh |
| StreamParsing.StreamParser.NoteSequence | src/sensor_host/protocol/sdf1.py:320-326 | modulo-2^32 accounting of one sequence number |
| StreamParsing.StreamParser.CheckHeader | src/sensor_host/protocol/sdf1.py:366-379 | size rules by version, each violation named and counted once |
| StreamParsing.StreamParser.Accept | src/sensor_host/protocol/sdf1.py:394-432 | one CRC-valid candidate yields the specified frame, counters, sequence and clock |
| StreamParsing.StreamParser.Candidate | src/sensor_host/protocol/sdf1.py:352-432 | at the magic: wait, drop one byte, or take one frame, as the specification does |
| StreamParsing.StreamParser.Feed | src/sensor_host/protocol/sdf1.py:328-435 | the cursor loop equals the recursive receiver on session, frames and residual buffer |
| Sdf1Encoder.PackedFields | src/sensor_host/transport/fake.py:380-391 | the packed header reads back as its fields |
| Sdf1Encoder.EncodeReads | src/sensor_host/transport/fake.py:370-393 | header, extension and payload of an encoded frame read back, and it is sealed |
| Sdf1Encoder.DataFrameWellFormed | src/sensor_host/transport/fake.py:370-393 | every data frame of the encoder with its exact payload size is accepted, has its version and type code, and decodes to the encoded fields |
| Sdf1Encoder.CliFrameWellFormed | src/sensor_host/transport/fake.py:395-413 | every CLI response frame is accepted, has its version and type code, and decodes to its text bytes |
| Demux.StripSplits | src/sensor_host/ota/demux.py:87 | stripping removes blanks at both ends and leaves none there |
| ReplyLines.OneLine | src/sensor_host/ota/demux.py:78-97 | one line under every cutting, with any of the six ASCII blanks around its core: claimed as that core if and only if the core starts with `+OTA:` or is `OK`, else passed byte for byte |
| ReplyLines.FrontTaken | src/sensor_host/ota/demux.py:68-123 | from the bytes alone: one whole frame of sound sizes, one byte if they are unsound, one line, or nothing yet |
| ReplyLines.OtaLineClaimed | src/sensor_host/ota/demux.py:78-97 | `+OTA:`, any text, CR and LF yield exactly that line, and nothing reaches the parser |
| ReplyLines.OkLineClaimed | src/sensor_host/ota/demux.py:78-97 | `OK`, CR and LF yield exactly `OK`, and nothing reaches the parser |
| Demux.SplitConserves | src/sensor_host/ota/demux.py:68-93 | segments and rest are the input in order; each claimed segment is one reply line with its newline |
| Demux.SplitConcat | src/sensor_host/ota/demux.py:63-97 | splitting is independent of where the stream is cut, before any release |
| Demux.FeedConserves | src/sensor_host/ota/demux.py:63-97 | on every input: old residue plus chunk are segments plus new residue; the receiver gets the unclaimed ones in order |
| Demux.BoundedHold | src/sensor_host/ota/demux.py:109-143 | the residue is at most the line bound or 3836 bytes, and the oversized-frame release is unreachable |
| Demux.ChunkIndependence | src/sensor_host/ota/demux.py:63-97 | on every stream whose text lines fit the bound, every cutting gives the lines, bytes and residue of one feed |
| Demux.SplitItems | src/sensor_host/ota/demux.py:68-93 | frames with any payload interleaved with reply lines are separated exactly |
| Demux.MixedStreamSeparates | src/sensor_host/ota/demux.py:63-123 | for every interleaving and every cutting: exactly the lines in order, exactly the frames decoded, nothing discarded |
| Demux.ReplyDeliveredIffShort | src/sensor_host/ota/demux.py:125-135 | a reply line survives every cutting if and only if it has at most `max_line` bytes |
| Demux.StreamDemultiplexer.Feed | src/sensor_host/ota/demux.py:63-97 | the in-place loop returns the lines, the parser bytes and the residue of the specification |
| Demux.StreamDemultiplexer.Flush | src/sensor_host/ota/demux.py:99-103 | returns the whole residue and empties it |
| Demux.StreamDemultiplexer.Reset | src/sensor_host/ota/demux.py:59-61 | discards the residue |
| OtaBridge.RunConserves | src/sensor_host/acquisition/controller.py:206-273 | over every run of arming, disarming, replies and chunks each raw byte is parsed, claimed, dropped or held; the lines of the claimed bytes pass the reply queue in order and leave it handed out or emptied by an arming; the dropped bytes are exactly the residues over which a session armed |
| OtaBridge.ArmingLosesReply | src/sensor_host/acquisition/controller.py:256-273 | a reply line that spans the end of one session and the start of the next is lost, and is queued if the session stays armed |
| OtaBridge.ArmedIsPipeline | src/sensor_host/acquisition/controller.py:256-268 | an armed connection is the demultiplexer feeding the receiver |
| OtaBridge.SessionSeparates | src/sensor_host/acquisition/controller.py:206-273 | a session on a new connection queues exactly the reply lines and decodes exactly the frames, with nothing discarded |
| OtaBridge.AcquisitionBridge.StartOta | src/sensor_host/acquisition/controller.py:206-209 | arms and asks for a reset |
| OtaBridge.AcquisitionBridge.EndOta | src/sensor_host/acquisition/controller.py:211-214 | disarms and withdraws the reset |
| OtaBridge.AcquisitionBridge.NextOtaReply | src/sensor_host/acquisition/controller.py:220-225 | takes the oldest reply, if any |
| OtaBridge.AcquisitionBridge.ParseChunk | src/sensor_host/acquisition/controller.py:256-273 | one chunk through reset, demultiplexer, flush and parser as specified |
| OtaCodec.DecodeEncode | src/sensor_host/ota/codec.py:67-124 | an encoded frame has the protocol's layout, byte positions and type codes literally, and decoding undoes encoding for every valid frame |
| OtaCodec.DecodeIffOnWire | src/sensor_host/ota/codec.py:98-124 | a message is accepted as a frame if and only if it has that frame's layout |
| OtaCodec.EncodeIff | src/sensor_host/ota/codec.py:67-95 | the sender refuses exactly the frames that break its rules |
| OtaCodec.EncodeDecode | src/sensor_host/ota/codec.py:67-124 | encoding restores an accepted frame byte for byte exactly when it meets the sender's rules, DATA always |
| OtaCodec.BurstRejected | src/sensor_host/ota/codec.py:98-124 | changing up to four adjacent bytes of an accepted frame makes it rejected |
| OtaCodec.DamageRejected | src/sensor_host/ota/codec.py:98-124 | a truncated or overwritten frame is unchanged or rejected, and never looks like the begin command |
| OtaPackage.PackManifest | src/sensor_host/ota/package.py:287-351 | the in-place packing succeeds exactly on admissible requests, size, address, CRC and version arguments included, and produces the specified block |
| OtaPackage.VersionsOrdered | src/sensor_host/ota/package.py:101-137 | formatting a packed version gives its fields back, and packed versions compare as their fields do |
| OtaPackage.VersionAcceptedIff | src/sensor_host/ota/package.py:114-137 | a version is accepted exactly as a 32-bit number, or as three fields of 8, 8 and 16 bits |
| OtaPackage.BlockParses | src/sensor_host/ota/package.py:140-188 | every packed block parses back to its fields |
| OtaPackage.PackageAccepted | src/sensor_host/ota/package.py:191-211 | a packed package is accepted, with the packed fields, if and only if it is in PACKAGE state with the image's own CRC |
| OtaPackage.AcceptedIsPacked | src/sensor_host/ota/package.py:140-211 | every accepted package is a packed one byte for byte |
| OtaPackage.ValidIffLayout | src/sensor_host/ota/package.py:140-211 | a package is accepted with its fields if and only if it has the literal layout |
| OtaPackage.BurstRejected | src/sensor_host/ota/package.py:140-211 | changing up to four adjacent bytes anywhere in a valid package makes it rejected |
| OtaDevice.FakeTransport.Write | src/sensor_host/transport/fake.py:193-243 | begin command, damaged frame, BEGIN, CANCEL, COMMIT and DATA each change the device and reply as specified |
| OtaDevice.CommandRecognised | src/sensor_host/transport/fake.py:193-213 | the literal begin command; what starts with `AT+OTA` resets the device and draws its limits, what is neither that nor a frame is refused |
| OtaDevice.DeliveryKeeps | src/sensor_host/transport/fake.py:213-243 | any delivery of a frame of this upload keeps the device on a front of the image, only extends it, and draws truthful replies |
| OtaUploader.HeldDataAcknowledged | src/sensor_host/transport/fake.py:237-243 | DATA that the device already holds, and CANCEL, leave the image unchanged and are acknowledged with what it holds |
| OtaUploader.RepeatsAnswered | src/sensor_host/transport/fake.py:213-243 | BEGIN, COMMIT and DATA at the device's offset are accepted, and answered the same way however often they arrive |
| OtaUploader.RoundsIsCeiling | src/sensor_host/ota/uploader.py:130-141 | the number of DATA rounds is the ceiling of size over payload limit |
| OtaUploader.Uploader.CheckCancelled | src/sensor_host/ota/uploader.py:226-231 | a requested cancellation sends one CANCEL, otherwise nothing is sent |
| OtaUploader.Uploader.Exchange | src/sensor_host/ota/uploader.py:195-224 | at most `max_retries + 1` copies of one frame; what was read decides the answer: a timeout or a refusal at the same offset sends again, a timeout is reported only after all attempts; on a lossy link the frame is answered if and only if some attempt gets through |
| OtaUploader.Uploader.Handshake | src/sensor_host/ota/uploader.py:175-193 | success is READY followed by OK and opens the session with the advertised limits; every other pair of lines has its failure |
| OtaUploader.Uploader.SendRound | src/sensor_host/ota/uploader.py:131-141 | one DATA round advances exactly to the end of its chunk or stops; on a lossy link it stops only when starved |
| OtaUploader.Uploader.SendData | src/sensor_host/ota/uploader.py:127-141 | all bytes acknowledged on success, in a bounded number of sends; on a lossy link if and only if no round is starved |
| OtaUploader.Uploader.Finish | src/sensor_host/ota/uploader.py:143-164 | success means the device holds the image and reported the manifest CRC, unless a begin command has reset it; on a lossy link it succeeds if and only if its exchange is not starved |
| OtaUploader.Uploader.Upload | src/sensor_host/ota/uploader.py:93-164 | on every link the device image is at all times a front of the package image; unless a begin command reaches a device that holds bytes, it reaches at least the host's offset and success means exact image and CRC; frames in order of stage, number and acknowledged offset (COMMIT only when all is acknowledged, a CANCEL naming the acknowledged offset last and exactly in cancelled runs) and at most (retries+1)(rounds+2) of them; on every link that only loses messages or answers it succeeds if and only if each exchange gets one of its `max_retries + 1` attempts through, and otherwise reports a timeout |
| OtaUploader.Link.Send | src/sensor_host/ota/uploader.py:195-203 | every arrival at the device is recorded in the trace and keeps the session safe; a reliable link hands the frame to the device once |
| OtaUploader.LateAnswerDerails | src/sensor_host/ota/uploader.py:131-141 | the second answer to a repeated DATA frame does not acknowledge the next round |
| OtaUploader.PayloadLimitIs | src/sensor_host/ota/uploader.py:117-119 | the payload limit is the advertised chunk, at most 512, and 512 if none is advertised |
| OtaUploader.LateCommandStagesNothing | src/sensor_host/ota/uploader.py:143-164 | a begin command ahead of COMMIT makes the device stage an empty image in a form the host takes as success |
| OtaUploader.LateCommandHarmless | src/sensor_host/transport/fake.py:200-213 | a begin command that arrives again keeps every acknowledgement true if and only if the device holds nothing or does not recognise it |
| Recorder.StepKeeps | src/sensor_host/storage/recorder.py:86-160 | every lock section keeps: queued bytes equal bytes reserved, queued and in hand, within capacity; file plus pending bytes are the accepted chunks; accepted is a prefix of submitted |
| Recorder.RunKeeps | src/sensor_host/storage/recorder.py:86-160 | the invariant holds over every interleaving of producer, writer and stopping thread |
| Recorder.FailureStays | src/sensor_host/storage/recorder.py:86-160 | over every interleaving the first failure stays, nothing is accepted behind it, without one neither the writer was lost nor a chunk refused, and a recording is not over before its writer is |
| Recorder.StartSound | src/sensor_host/storage/recorder.py:65-84 | every recording that begins here writes only and all of its own chunks if and only if the queue is empty, of chunks and of sentinels, and no submission is under way |
| Recorder.RestartAfterStop | src/sensor_host/storage/recorder.py:65-160 | over every run: a stopped recorder may be started again if and only if it was stopped once, its writer got to the sentinel and the file is complete |
| Recorder.SentinelsKept | src/sensor_host/storage/recorder.py:110-160 | the writer takes one sentinel of a recording and leaves the sentinel of every other stop in the queue |
| Recorder.SolidRun | src/sensor_host/storage/recorder.py:86-101 | over every history, restarts included, no empty chunk is queued, reserved or in hand |
| Recorder.RoomyRun | src/sensor_host/storage/recorder.py:86-101 | while all submitted bytes fit the capacity, the capacity latch is never set, whatever the writer does |
| Recorder.StopWritesEverything | src/sensor_host/storage/recorder.py:110-160 | after a stop without disk error the file is exactly what was queued ahead of the sentinel, over every interleaving; it is all accepted chunks if and only if no submission was under way at the sentinel and none was accepted behind it, and exactly then nothing is left in the queue |
| Recorder.LateSubmissionLost | src/sensor_host/storage/recorder.py:86-138 | a submission during the stop is accepted and never written |
| Recorder.StrandedChunkLeaks | src/sensor_host/storage/recorder.py:65-84 | restarting the same recorder writes that chunk into the next file and makes the byte count negative |
| Recorder.DiskErrorStrandsSentinel | src/sensor_host/storage/recorder.py:110-160 | after a disk error and a stop, the next recording on the same recorder is lost with no failure reported |
| Recorder.SecondStopStrandsSentinel | src/sensor_host/storage/recorder.py:120-123 | after a stop that timed out and was repeated, the next recording is lost with no failure reported |
| Recording.RawSessionRecorder.Start | src/sensor_host/storage/recorder.py:65-84 | refuses when active, else resets the counters and leaves the queue as it is; from an empty queue it is a clean start |
| Recording.RawSessionRecorder.WriterSection | src/sensor_host/storage/recorder.py:140-160 | each section of the writer thread is the specified step |
| Recording.RawSessionRecorder.Submit | src/sensor_host/storage/recorder.py:86-101 | reservation, writer steps and enqueueing form a run of the machine; the result says whether the chunk was accepted |
| Recording.RawSessionRecorder.Stop | src/sensor_host/storage/recorder.py:110-138 | sentinel, writer steps and finalization form a run of the machine; stopped without disk error outside a submission, the file is all accepted chunks and the queue is empty; a writer that did not finish leaves the recording active |
| Recording.RecordingController.DeferUntilIdentity | src/sensor_host/acquisition/controller.py:170-174 | deferral begins only without a recorder |
| Recording.RecordingController.CancelDeferred | src/sensor_host/acquisition/controller.py:176-181 | deferred frames are discarded |
| Recording.RecordingController.HandleLiveFrame | src/sensor_host/acquisition/controller.py:310-321 | a live frame is submitted, or deferred while it fits; a refused submission and a full deferral are reported as the last error; an inactive recorder raises and nothing changes |
| Recording.RecordingController.SetRecorder | src/sensor_host/acquisition/controller.py:157-168 | a freshly started recorder receives every live frame since deferral began, once and in order, while the limit was not exceeded; the flush cannot trip its capacity latch, and a refusal is reported |
| SampleStore.PruneIsSince | src/sensor_host/acquisition/sample_store.py:209-224 | dropping old chunks and trimming the first keeps exactly the samples since the cutoff |
| SampleStore.WindowRefines | src/sensor_host/acquisition/sample_store.py:226-249 | any window of the store is that window of the full history, as far as retention reaches |
| SampleStore.StoreRefinement | src/sensor_host/acquisition/sample_store.py:91-122 | for every run of appends with non-decreasing times and clears, the window is the samples since the last clear within min(window, retention) of the latest |
| SampleStore.RealtimeSampleStore.AppendIisArrays | src/sensor_host/acquisition/sample_store.py:111-122 | appends the batch and prunes as specified; an empty batch changes nothing |
| SampleStore.RealtimeSampleStore.PruneLocked | src/sensor_host/acquisition/sample_store.py:209-224 | the in-place loop and trim equal the specification and leave no empty chunk, also on unordered input |
| SampleStore.RealtimeSampleStore.WindowArrays | src/sensor_host/acquisition/sample_store.py:226-249 | the loop over chunks returns the specified window |
| Envelope.BucketExtremes | src/sensor_host/acquisition/sample_store.py:53-63 | the chosen positions are exactly the first weakest and the first strongest of every bucket, so every interior sample is matched by a chosen one at least as strong |
| Envelope.Strongest | src/sensor_host/acquisition/sample_store.py:66-71 | keeps exactly the budget's number of candidates, or all if fewer, none weaker than one left out, ties in any order |
| Envelope.EnvelopeIndices | src/sensor_host/acquisition/sample_store.py:34-73 | strictly increasing indices within the budget, both ends included; between them the strongest of the bucket extremes, exactly as many as the budget allows; from budget 3 on the largest magnitude of all samples, for any bucket edges |
| Playback.BuildPlaybackIndex | src/sensor_host/storage/archive_library.py:136-213 | the scanning loop lists the entries of the recursive scan, the sample total, and the times of the first and last FIFO frames |
| Playback.HeaderScanned | src/sensor_host/storage/archive_library.py:151-202 | from the bytes alone: where the scan stops, and what it lists for a header it trusts |
| Playback.FirstIisIs | src/sensor_host/storage/archive_library.py:190-192 | the first time is that of the first FIFO frame |
| Playback.LastIisIs | src/sensor_host/storage/archive_library.py:190-192 | the last time is that of the last FIFO frame |
| Playback.ScanFrames | src/sensor_host/storage/archive_library.py:151-202 | on well-formed frames: one entry per frame with its offset, time, kind and running sample count |
| Playback.IndexAgrees | src/sensor_host/storage/archive_library.py:136-213 | the index lists exactly the frames the receiver decodes, and decoding from any indexed offset yields exactly the remaining frames |
| Playback.SeekLands | src/sensor_host/storage/archive_library.py:72-78 | seeking lands on an indexed frame; with ordered times on the last one not after the target, or the first |
| Playback.TakeUntilTwice | src/sensor_host/presentation/playback_controller.py:158-177 | filling to one cutoff and then another is filling once to the larger |
| Playback.PlaybackPump.RestartDecoder | src/sensor_host/presentation/playback_controller.py:189-197 | restarts at an offset with a fresh session and nothing pending |
| Playback.PlaybackPump.ReadMore | src/sensor_host/presentation/playback_controller.py:168-177 | reading one piece moves frames from the undecoded rest to the pending ones without loss or change |
| Playback.PlaybackPump.FillUntil | src/sensor_host/presentation/playback_controller.py:158-177 | terminates, and for every series of cutoffs the applied frames are the longest run of sensor frames within the largest cutoff, each once and in file order |
| Playback.PlaybackPump.Seek | src/sensor_host/presentation/playback_controller.py:113-124 | clamps the playhead, restarts one window earlier and fills up to it |
| Playback.PlaybackPump.Tick | src/sensor_host/presentation/playback_controller.py:139-151 | from the first tick on: the playhead moves on by exactly the elapsed time, up to the end, and the applied frames are exactly those due by it; playback stops if and only if the playhead is within epsilon of the end and every frame has been applied |
| Playback.PlaybackPump.Play | src/sensor_host/presentation/playback_controller.py:139-156 | over every run of ticks from a restart the playhead is the sum of the elapsed times, up to the end, and playback stops at the first tick where that sum is within epsilon of the end and every frame is due |

## Left out

- OtaUploader.Uploader.Upload: after a begin command has reset a device in the middle of a session, only that it holds a front of the image is stated, because the code guarantees no more; exceptions of the transport and the text of the reply fields are not modelled.
- OtaPackage.PackManifest: takes versions as packed numbers or fields and the package id as given bytes; splitting a version string and the SHA-256 digest are not modelled.
- OtaDevice.FakeTransport.Write: the `strict` profile, which refuses DATA ahead of the offset, comes from the device used by tests/test_ota_uploader.py; with it off the device is the one of fake.py.
- Envelope.EnvelopeIndices: takes the bucket edges as a parameter, because their floating-point spacing is a library call; the result holds for any non-decreasing edges.
- Recording.RawSessionRecorder.WriterSection: a disk error is one failing step; partial writes, fsync, JSON sidecars and file paths are not modelled.
- Playback.PlaybackPump.FillUntil: records the applied frames instead of passing them on to the sample store.
- Decoded values of JY61PL, STATUS and CLI payloads (fixed-point scaling, field tuples, UTF-8): the frames keep their raw payload bytes.
- Acceleration in g, sample rate and relative display times: one-line floating-point formulas over the modelled integers.
- Sockets, serial ports, UDP wake, timers, Qt widgets and the application controller.
- Node session bookkeeping and the textual parsing of CLI and `+OTA:` fields; replies are a datatype.
- Identity tracking and archive-export routing of frames in the acquisition controller.
- Live-data generation, export timing and the non-OTA commands of the simulated device.
