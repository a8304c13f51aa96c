# A verified model of a userland FireWire audio transport

The repository drives a FireWire audio interface from user space. Audio crosses a chain of small state machines that never wait for
each other: a controller that runs on the bus clock, a driver extension that tracks it by reading status words, a daemon that paces
the transmit ring and carries the mixer, two lock-free shared-memory rings and three seqlocks, and an audio plug-in with a clock of
its own. This project models that chain and proves what every run of it keeps.

Code that updates fields or arrays step by step is a class or a method here, with the source's loops, and is proved against a function
on values. The results over whole runs are lemmas about those functions: a run is a fold over an arbitrary sequence of steps, so each
one speaks of every interleaving. `dafny verify dfyconfig.toml` checks the whole project.

| file | what it models |
|---|---|
| `Cadence.dfy` | which packets of the looping transmit ring are full |
| `ReceiveRing.dfy`, `TransmitRing.dfy` | the two DMA cursor protocols against a free-running controller |
| `PacedTransmit.dfy`, `PacedRounds.dfy` | the pump's paced fill on top of the transmit cursors, with the packet payloads; and why it never runs dry while ticks and interrupts keep up |
| `SpscRing.dfy`, `Seqlock.dfy` | the shared-memory ring and the seqlocks at single load and store steps |
| `ZeroTimestamp.dfy` | the plug-in's clock: lock, loss, free run |
| `HoldDecay.dfy`, `FramePipeline.dfy`, `PlaybackPace.dfy`, `PlaybackObjects.dfy`, `PlaybackRun.dfy` | playback: cycles to stage to ring to packets, with the fading hold; and when it goes through without a hitch |
| `CaptureStage.dfy` | capture: the daemon's slots to the cycles each input stream is handed |
| `MixerModel.dfy`, `MixerCommands.dfy`, `MixerPump.dfy`, `MixerDaemon.dfy` | the mixer model, what each command makes of it, its rendered matrix, and its incremental way to the device |
| `Servo.dfy` | the fractional-frame rate servo |
| `TestSignal.dfy`, `TestSignalFaults.dfy`, `Wav.dfy` | the self-describing test signal, its analyser and what its report says, and the WAV writer and reader |
| `Arithmetic.dfy` | facts about quotients, rows and ring slots the others share |

## What the proofs found

Where a property does not hold of the code on all inputs, the code is modelled as it is and the exact condition is proved.

- The control socket passes channel indices on unchecked (`platform/daemon/uf_ctl_server.hpp:189-243`). A command with an index out of
  range can make the cached matrix differ from a fresh render. `MixerPump.SafeExactlyWhenCoherent` gives the exact set of harmless
  commands: those in range, and flags commands that force a zero onto a padding cell. Every other command breaks a clean state that a run
  from a first session leads to.
- A session restart drops a slot the fill holds without giving it back (`platform/daemon/uf-daemon.cpp:1176`), though the playback ring is
  made once and lives on (`platform/daemon/uf-daemon.cpp:924`). Each frame is sent once if and only if no real frame is taken after a
  restart that dropped a slot already read from (`FramePipeline.EachOnceUnlessReplayed`; `FramePipeline.AResetReplays` is such a run).
- Playback loses and repeats nothing, resets aside, if and only if the plug-in is never eight slots ahead of what the fill has given back
  and the fill never asks for more than the whole slots offered (`PlaybackPace.SmoothExactlyInPace`); a slot goes back only with the first
  frame taken from the next one.
- With an interrupt and a tick at least every 21 packets transmission never runs dry: the cursor the dext applies is one tick old, and a
  third of the 64-packet lead covers each of the steps it takes to get there (`PacedRounds.PlaybackGoesOn`).
- The servo's acceptance band lies around 8000 full packets a second, so at 44.1, 88.2 and 176.4 kHz no measurement near the true rate
  is ever accepted and the servo stays inert (`Servo.EngagesOnlyWhereEveryPacketIsFull`).
- The transmit scan catches up with the wire if and only if the head is within the fill cursor and, since the last start, every full
  packet went out after it was handed back (`TransmitRing.ScanReachesTheHead`). Overtaking the cursor with an empty packet does no harm;
  one full packet sent too early keeps every later scan behind until a restart (`TransmitRing.StarvedScanStaysBehind`), and
  `TransmitRing.StarvedScanFallsBehind` is such a run.
- The capture count likewise is exact after a scan if and only if, since the last start, no packet was completed a whole ring ahead of the
  reader (`ReceiveRing.ScanIsExactUnlessLapped`); a lap is not recovered from, and `ReceiveRing.ALapLosesAPacket` is one.
- The pump's fill cursor goes back exactly when it is given a count more than a ring behind it, which is then an older count than the one
  it had (`PacedTransmit.OnlyAnOlderCountGoesBack`; `PacedTransmit.TheCursorCanGoBack` is such a run).
- The analyser counts deleted runs exactly if and only if none is longer than 32766 frames (`TestSignal.CountsAreExactIffRunsAreShort`).
  Of a longer run only the length modulo 65536 shows: nothing for a whole number of periods, a gap of the remainder up to 32766, a repeat
  for a remainder of 65535, a step back in between (`TestSignal.GapVerdict`, `TestSignal.DeletedRunsAreTallied`).
- The WAV reader adds chunk sizes in 32 bits. It fails to return exactly when the walk meets a chunk of size 0xFFFFFFF7 or 0xFFFFFFF8
  (`Wav.ReturnsExactly`; `Wav.AFileThatNeverReturns` is one of 44 bytes), and a written file reads back exactly up to 2^32 - 10 bytes of
  data (`Wav.RoundTripExactly`; three longer lengths depend on the chunk headers the wrapped sum lands on, none from 2^32 on reads back).
- Importing a raw matrix reproduces it exactly when its padding cells are zero and every coefficient is at most twice unity
  (`MixerModel.ImportThenRender`); every matrix the model itself renders is such a one.

## Model

| member | source | states |
|---|---|---|
| `Cadence.FullPacketsExact` | include/uf/protocol/channels.hpp:56-58 | for any ring length L and full count F up to L, the first N packets of the looping cadence hold exactly floor(N*F/L) full ones, for every N across laps |
| `Cadence.NoTwoConsecutiveEmpties` | include/uf/protocol/channels.hpp:53-58 | with at least half the ring full no two neighbouring packets are empty, laps included |
| `Cadence.SupportedGeometry` | platform/daemon/uf-daemon.cpp:617-625 | at every supported rate the session's full count times its frames per packet is exactly the rate's share of one ring, and at least half the ring is full |
| `Cadence.NeverDriftsAPacket` | include/uf/protocol/channels.hpp:42-58 | at every supported rate the frames sent after N packets never differ by a whole packet from rate*N/8000 |
| `Cadence.FullCountIsTheShare` | include/uf/protocol/channels.hpp:48-51 | at any rate the full count of a ring is the rate's share of it, rounded down |
| `Cadence.TopRatesFillThreeInFour` | include/uf/protocol/channels.hpp:33-51 | at the top rate of each speed three packets in four are full, and their frames are exactly the rate's |
| `ReceiveRing.CaptureCountIsNeverAhead` | platform/ohci-dext/UFFireWireOHCI.cpp:1281-1309 | in every interleaving of completions, scans, releases to arbitrary targets and restarts, read <= write <= read+512 and the reported count never exceeds the packets really completed |
| `ReceiveRing.ScanIsExactUnlessLapped` | platform/ohci-dext/UFFireWireOHCI.cpp:1281-1309 | after a scan the count equals the completed packets if and only if since the last start no packet was completed a whole ring ahead of the read cursor |
| `ReceiveRing.SeenOrLost` | platform/ohci-dext/UFFireWireOHCI.cpp:1281-1309 | in every run either all completed, uncounted packets still show their word, or one is lost to the scan; which of the two is decided by whether a packet came a ring ahead |
| `ReceiveRing.LappedScanStaysShort` | platform/ohci-dext/UFFireWireOHCI.cpp:1281-1309 | after a lap no scan is exact again until a restart, whatever is released |
| `ReceiveRing.ALapLosesAPacket` | platform/ohci-dext/UFFireWireOHCI.cpp:1281-1309 | a run whose scan falls short of the completed packets: one more than a ring, nothing released |
| `ReceiveRing.AlwaysWithinOneRing` | platform/ohci-dext/UFFireWireOHCI.cpp:1281-1309 | a controller never more than one ring ahead at any point of the run meets that condition |
| `ReceiveRing.UnreadPacketsIntact` | platform/ohci-dext/UFFireWireOHCI.cpp:1297-1309 | the counted, unreleased slots still hold their own packets exactly when the controller has not gone a whole ring past the read cursor |
| `ReceiveRing.ReleaseMovesTheReader` | platform/ohci-dext/UFFireWireOHCI.cpp:1297-1309 | a release moves the read cursor to its target, or to the write cursor if that is nearer, and never back |
| `ReceiveRing.TurnsAreTheScan` | platform/ohci-dext/UFFireWireOHCI.cpp:1281-1292 | single turns of the scan take the count towards where the whole scan would stop, and 512 of them are the whole scan |
| `ReceiveRing.CaptureGoesOn` | platform/ohci-dext/UFFireWireOHCI.cpp:1281-1309 | over any number of rounds of at most a ring of packets each, scanned and released, every packet is counted and released and the controller never laps the reader |
| `ReceiveRing.ReceiveContext.IsoStartContinuous` | platform/ohci-dext/UFFireWireOHCI.cpp:1239-1277 | starting rewinds both cursors and clears every status word |
| `ReceiveRing.ReceiveContext.IsoCompletedCount` | platform/ohci-dext/UFFireWireOHCI.cpp:1281-1292 | the scan loop over the status array computes the specified scan; with no ring set up it reports the cursor unchanged |
| `ReceiveRing.ReceiveContext.Release` | platform/ohci-dext/UFFireWireOHCI.cpp:1297-1309 | the release loop clears exactly the released slots, never past the write cursor |
| `TransmitRing.CountedAheadIsEmpty` | platform/ohci-dext/UFFireWireOHCI.cpp:1439-1544 | in every interleaving of a free-running controller with scans, refills to arbitrary targets and restarts, sent <= fill <= sent+640 and every packet counted as sent but not yet transmitted is an empty one |
| `TransmitRing.AtMostOneAhead` | platform/ohci-dext/UFFireWireOHCI.cpp:1514-1530 | with at least half the ring full the count is at most one packet ahead of the wire |
| `TransmitRing.ScanReachesTheHead` | platform/ohci-dext/UFFireWireOHCI.cpp:1514-1544 | a scan reaches every transmitted packet if and only if the head is within the fill cursor and every full packet since the last start went out after it was handed back; with half the ring full it never lands more than one packet past the head |
| `TransmitRing.SeenOrBlocked` | platform/ohci-dext/UFFireWireOHCI.cpp:1514-1544 | in every run either all transmitted full packets show their word, or one blocks the scan; which of the two is decided by whether a full packet went out too early |
| `TransmitRing.NeverOvertakenIsInTime` | platform/ohci-dext/UFFireWireOHCI.cpp:1514-1544 | a controller never past the fill cursor at any point of the run sent no full packet too early |
| `TransmitRing.StarvedScanStaysBehind` | platform/ohci-dext/UFFireWireOHCI.cpp:1514-1544 | after one full packet sent too early no scan reaches the head again until a restart, whatever is refilled |
| `TransmitRing.StarvedScanFallsBehind` | platform/ohci-dext/UFFireWireOHCI.cpp:1514-1544 | a run that ends with the head within the fill cursor, the early slot handed back, and the scan still short of the head |
| `TransmitRing.FirstLapIsInTime` | platform/ohci-dext/UFFireWireOHCI.cpp:1439-1530 | after a start up to 640 packets go out in time at any rate, and a scan counts them all |
| `TransmitRing.TransmitContext.IsoTxStart` | platform/ohci-dext/UFFireWireOHCI.cpp:1439-1498 | bad arguments change nothing; a good start rewinds the cursors with the whole ring counted as filled |
| `TransmitRing.TransmitContext.IsoTxSent` | platform/ohci-dext/UFFireWireOHCI.cpp:1514-1530 | the scan loop computes the specified scan; not running is an error with count zero |
| `TransmitRing.TransmitContext.Refill` | platform/ohci-dext/UFFireWireOHCI.cpp:1534-1544 | the refill loop clears exactly the slots handed back and stops one ring ahead of the sent cursor |
| `PacedTransmit.RunKeepsInv` | platform/daemon/uf-daemon.cpp:1497-1511 | wire, single turns of the dext's refill and scan, its publishes, and the pump's snapshot, hand-over, call, answer, resync and packet writes, in any order, keep the two sides' cursors and the slot payloads in agreement |
| `PacedTransmit.WritesOnlyInTheWindow` | platform/daemon/uf-daemon.cpp:1823-1834 | the pump writes only packets 8 to 63 ahead of the reported head, stands 64 to 640 ahead after each tick, and the dext never believes in a slot the pump has not passed |
| `PacedTransmit.OnlyAnOlderCountGoesBack` | platform/daemon/uf-daemon.cpp:1823-1833 | the fill cursor goes back exactly when it is given a count more than a ring behind it, and such a count is older than the one it had |
| `PacedTransmit.TheCursorCanGoBack` | platform/daemon/uf-daemon.cpp:1497-1511 | a run in which it does: a call answered with a newer count than the status page then holds |
| `PacedTransmit.NeverWritesTheSlotInFlight` | platform/daemon/uf-daemon.cpp:1823-1834 | if the real head moved at most 7 packets past the snapshot, the slot about to be written is not in flight and its old packet has gone out |
| `PacedTransmit.TransmitsItsOwnPayload` | platform/daemon/uf-daemon.cpp:1836-1882 | a packet written before the head reached it goes out with its own audio; with no late write and no resync that is every full packet |
| `PacedTransmit.CallTakesTheCountOrNone` | platform/daemon/uf-daemon.cpp:259-267 | an answered call gives the pump the dext's own count, a failed one leaves count and cursor where they were |
| `PacedTransmit.SessionsKeepHalfTheRingFull` | platform/daemon/uf-daemon.cpp:617-625 | the half-full condition holds at every rate a session can start at |
| `PacedRounds.HandOverReachesTheDext` | platform/daemon/uf-daemon.cpp:1502-1509 | the cursor the pump stores in the control block is the one the dext refills up to, as far as the ring has room |
| `PacedRounds.CallReachesTheDext` | platform/daemon/uf-daemon.cpp:1510-1510 | so is the cursor passed in a call |
| `PacedRounds.EveryRunIsATransmitRun` | platform/ohci-dext/UFFireWireOHCI.cpp:1514-1544 | the dext's side of every paced run is a run of the transmit ring, in time exactly when every full packet went out within the cursor that had reached the dext |
| `PacedRounds.PlaybackGoesOn` | platform/daemon/uf-daemon.cpp:1497-1511 | for any number of rounds of at most 21 packets, each with an interrupt and a tick, every full packet goes out in time, the count reaches the head after every round, both cursors stay ahead, and there is no resync and no late write |
| `PacedTransmit.PacedFill.Tick` | platform/daemon/uf-daemon.cpp:1823-1834 | one tick resynchronises or continues, writes every full packet up to 64 ahead into its own slot and touches no other slot |
| `SpscRing.WriterAndReaderNeverShareASlot` | platform/shared/uf_shm_ring.hpp:167-183 | at single load and store steps, 0 <= head-tail <= 8 and the slot being written is never the slot held for reading |
| `SpscRing.ReadsAreAPrefixOfCommits` | platform/shared/uf_shm_ring.hpp:167-183 | the slots read are a prefix of the slots committed, in order and unaltered |
| `SpscRing.RefusalsAreReal` | platform/shared/uf_shm_ring.hpp:167-183 | a refused acquire was justified by the ring's state when the other side's counter was loaded |
| `SpscRing.RefusalsAreCounted` | platform/shared/uf_shm_ring.hpp:168-182 | an acquire on a full, or an empty, ring counts one overrun, or one underrun, and changes nothing else |
| `SpscRing.WrittenIsCommitted` | platform/shared/uf_shm_ring.hpp:167-174 | a producer that finds room makes exactly the slot it wrote the newest committed one |
| `SpscRing.ReadIsTheOldest` | platform/shared/uf_shm_ring.hpp:176-183 | a consumer that finds a slot reads the oldest committed one word for word and gives it back |
| `Seqlock.ReadsOnePublish` | platform/shared/uf_shm_ring.hpp:141-165 | for any number of words and any interleaving, a successful read returns the words of exactly one publish, the latest complete when the read began |
| `Seqlock.SucceedsExactlyWhenStill` | platform/shared/uf_shm_ring.hpp:151-165 | whatever steps fall inside a read, it returns one result if and only if the counter let it in and still stands where it stood |
| `Seqlock.UndisturbedReadSucceeds` | platform/shared/uf_state_shm.hpp:136-145 | a read with no writer step inside it succeeds and returns exactly the words asked for |
| `Seqlock.PublishThenRead` | platform/shared/uf_state_shm.hpp:128-145 | publish then read gives back the published page under the next even counter |
| `Seqlock.AnchorPairsBelongTogether` | platform/shared/uf_shm_ring.hpp:141-165 | a clock anchor that is read was published as that pair, by the publish its seed names |
| `Seqlock.StateCopyIsOnePage` | platform/shared/uf_state_shm.hpp:128-145 | a word-by-word copy of the state page in any order is one published page |
| `Seqlock.StatusSnapshotIsOneInterrupt` | platform/daemon/uf-daemon.cpp:355-369 | the counts and times the pump acts on were written by one interrupt |
| `ZeroTimestamp.RunKeepsPromises` | platform/shared/uf_zero_timestamp.hpp:11-25 | for every sequence of inputs and rate changes the sample time is a non-negative multiple of the period, neither time decreases, and the lag stays within the stale limit on every return |
| `ZeroTimestamp.CallKeepsPromises` | platform/shared/uf_zero_timestamp.hpp:80-126 | the same promises for one call from any sound state |
| `ZeroTimestamp.NeverAPeriodAhead` | platform/shared/uf_zero_timestamp.hpp:80-138 | with a non-decreasing now and a fixed rate the host time is at most one period ahead of now |
| `ZeroTimestamp.SeedMovesExactlyOnDiscontinuity` | platform/shared/uf_zero_timestamp.hpp:83-124 | the seed moves at most once a call, exactly on gaining the lock, losing it, or a fall of the quantised device count; no call both gains and loses |
| `ZeroTimestamp.HealthyRunIsTheDeviceClock` | platform/shared/uf_zero_timestamp.hpp:83-126 | over a healthy run of any length, torn reads allowed, the seed is constant and the output is the quantised device clock plus one fixed offset, with the device's host times |
| `ZeroTimestamp.GainingTheLock` | platform/shared/uf_zero_timestamp.hpp:86-104 | the call that gains the lock steps the timeline exactly one period on to the device anchor, or holds it there if the anchor is older than what was handed out |
| `ZeroTimestamp.WaitingTimelineJoins` | platform/shared/uf_zero_timestamp.hpp:86-126 | a timeline held at the lock joins the device clock at the next newer anchor, with no further seed move |
| `ZeroTimestamp.LocksExactlyOnFreshAnchors` | platform/shared/uf_zero_timestamp.hpp:83-104 | an unlocked clock locks on exactly the anchors with a device time and a sample count that is a number and not negative, at most a period in the future and no older than the staleness window |
| `ZeroTimestamp.FreeRunAdvances` | platform/shared/uf_zero_timestamp.hpp:106-124 | with no device to believe in, a call moves sample and host time on together by whole periods, to within one period of now |
| `ZeroTimestamp.FreeRunKeepsTheRate` | platform/shared/uf_zero_timestamp.hpp:106-124 | over any run of such calls the timeline keeps the nominal rate exactly and stays within one period of now |
| `ZeroTimestamp.RateSetsThePeriod` | platform/shared/uf_zero_timestamp.hpp:69-72 | the ticks of a period are those of its frames at the rate set, rounded down, and at least one |
| `ZeroTimestamp.ZeroTimeStampClock.constructor` | platform/shared/uf_zero_timestamp.hpp:48-53 | a new clock is sound, unlocked and at zero |
| `ZeroTimestamp.ZeroTimeStampClock.SetTicksPerFrame` | platform/shared/uf_zero_timestamp.hpp:69-72 | a rate change keeps the clock sound and moves neither time nor seed |
| `ZeroTimestamp.ZeroTimeStampClock.GetNext` | platform/shared/uf_zero_timestamp.hpp:80-126 | the imperative call equals the specified one, with the promises on its result |
| `HoldDecay.MagnitudeNeverGrows` | platform/shared/uf_tx_fill.hpp:59-67 | later held samples are never larger and never change sign |
| `HoldDecay.Halvings` | platform/shared/uf_tx_fill.hpp:59-67 | from below 256*2^k, 256*k decays bring any sample into -256..255: 256 decays per halving |
| `HoldDecay.SilentAfter6144` | platform/shared/uf_tx_fill.hpp:59-67 | from any 32-bit sample the wire value is zero after 6144 decays and stays zero, negatives included |
| `HoldDecay.FadeIsGradual` | platform/shared/uf_tx_fill.hpp:59-67 | n held frames leave at least what n reductions by one part in 256 would: the fade never jumps |
| `HoldDecay.WireIsTheTopBits` | platform/shared/uf_tx_fill.hpp:59-67 | the wire carries the top 24 of the 32 bits |
| `FramePipeline.RunKeepsInv` | platform/shared/uf_tx_fill.hpp:38-80 | pushes, ticks, packets, frames and resets in any order keep ring contents, cursors and streams in agreement |
| `FramePipeline.EachOnceUnlessReplayed` | platform/shared/uf_tx_fill.hpp:46-80 | for any schedule, resets included, every real frame sent is an accepted one cut to the device's channels and none up to the furthest reached is left out; each is sent once if and only if no real frame was taken after a reset dropped a slot already read from |
| `FramePipeline.AResetReplays` | platform/daemon/uf-daemon.cpp:1172-1176 | a run in which a restart makes a frame go out twice |
| `FramePipeline.SentIsAPrefixOfAccepted` | platform/shared/uf_tx_fill.hpp:46-69 | without such a replay the real frames sent are a prefix of the frames accepted, each once, in order; always, held() counts exactly the rest, and a packet causes at most one failed acquire |
| `FramePipeline.NoResetNoReplay` | platform/shared/uf_tx_fill.hpp:46-80 | a run without resets has no replay |
| `FramePipeline.DrySpellFadesToSilence` | platform/shared/uf_tx_fill.hpp:59-67 | at any point of any run the frame in hand is the last real one, or silence if there has been none, decayed once for every frame asked for since but the first; so the first held frame repeats it exactly, later ones only shrink, and from the 6145th on every channel is silent on the wire |
| `FramePipeline.SlotIsReadAtItsOwnWidth` | platform/shared/uf_tx_fill.hpp:50-53 | a slot is read at its own channel count, or the device's if it does not say, and what it lacks is silent |
| `FramePipeline.NewPacketFindsCommittedAudio` | platform/shared/uf_tx_fill.hpp:42-57 | a new packet starts with a real frame whenever committed audio is waiting: the miss latch strands nothing |
| `FramePipeline.DryTickSaysAMiss` | platform/shared/uf_tx_fill.hpp:38-57 | a tick is dry once an acquire in it has failed, and only then |
| `PlaybackPace.RefusedExactlyWhenFull` | platform/coreaudio/UFAudioDriver.cpp:294-311 | a push is refused exactly when eight slots' worth of frames has not been given back; that is counted, and loses that frame alone |
| `PlaybackPace.SmoothExactlyInPace` | platform/shared/uf_tx_fill.hpp:38-69 | in every interleaving without a reset no push is refused and no frame is held if and only if the plug-in is never eight slots ahead of what went back and the fill never asks for more than the whole slots offered; then everything offered is in the ring and everything asked for is the next frame offered |
| `PlaybackObjects.Ring.AcquireWrite` | platform/shared/uf_shm_ring.hpp:168-173 | the head slot, or a counted overrun exactly when eight slots are out |
| `PlaybackObjects.Ring.AcquireRead` | platform/shared/uf_shm_ring.hpp:177-182 | the tail slot, or a counted underrun exactly when none is committed |
| `PlaybackObjects.TxFill.constructor` | platform/shared/uf_tx_fill.hpp:32-33 | a fresh fill, never wider than the ring, holding silence |
| `PlaybackObjects.TxFill.GetFrame` | platform/shared/uf_tx_fill.hpp:46-69 | one frame of the object, with its in-place buffers, is one frame of the specification |
| `PlaybackObjects.TxFill.Reset` | platform/shared/uf_tx_fill.hpp:77-80 | the held slot is forgotten and stays with the ring; everything else is kept |
| `PlaybackObjects.FlushIsARunOfPushes` | platform/coreaudio/UFAudioDriver.cpp:294-311 | a flush is a run of the pipeline in which only the plug-in moves: the staged frames in order, up to the first refusal |
| `PlaybackObjects.CycleIsPublishedWhole` | platform/coreaudio/UFAudioDriver.cpp:220-258 | when every stream of a cycle has contributed, the whole assembled cycle has gone to the ring once |
| `PlaybackObjects.OpenCyclePublishes` | platform/coreaudio/UFAudioDriver.cpp:220-258 | the same from the middle of a cycle, for the streams still to come |
| `PlaybackObjects.ChannelLandsInItsColumn` | platform/coreaudio/UFAudioDriver.cpp:246-252 | channel j of frame f of a stream's interleaved buffer is staged in the stream's base column plus j of frame f |
| `PlaybackObjects.OnlyWhatDoesNotFitIsLeftOut` | platform/coreaudio/UFAudioDriver.cpp:231-252 | the only frames left out are those not whole or beyond the stage, the only columns those beyond the ring's width |
| `PlaybackObjects.UsableExactlyIfAChannelFits` | platform/coreaudio/UFAudioDriver.cpp:230-232 | a stream is ignored as a whole exactly when none of its channels has a place on the ring |
| `PlaybackObjects.CoveredColumnIsTheStreams` | platform/coreaudio/UFAudioDriver.cpp:246-252 | a staged column carries, frame by frame, the samples the last covering stream's interleaved buffer has for that frame and channel |
| `PlaybackObjects.UncoveredColumnIsUntouched` | platform/coreaudio/UFAudioDriver.cpp:246-252 | a column no stream covers keeps what the stage held |
| `PlaybackObjects.IdleGroupIsSilent` | platform/coreaudio/UFAudioDriver.cpp:236-245 | a group idle in a cycle comes out silent |
| `PlaybackObjects.OutputHandler.FlushStageToRing` | platform/coreaudio/UFAudioDriver.cpp:294-311 | the flush loop over the stage array equals the specified flush |
| `PlaybackObjects.OutputHandler.OnWriteMixedOutput` | platform/coreaudio/UFAudioDriver.cpp:220-258 | the callback equals the specified step: flush what was left open, open, copy columns, publish when complete; unusable streams change nothing |
| `PlaybackRun.EveryRunIsAPipeline` | platform/coreaudio/UFAudioDriver.cpp:220-311 | callbacks for any cycles and streams, their flushes one frame at a time, interleaved with ticks, packets, frames and resets of the fill: every run is a run of the pipeline, and what it accepted are the frames of each flushed stage up to that flush's refusal |
| `PlaybackRun.FlushesAreAssembled` | platform/coreaudio/UFAudioDriver.cpp:220-258 | in every such run each flush publishes its cycle's streams, written in order over a stage silenced for the cycle, and that of a complete cycle has them all |
| `PlaybackRun.FlushedSample` | platform/coreaudio/UFAudioDriver.cpp:236-252 | so a flushed sample is the one the last covering stream's interleaved buffer has for that frame and channel, or silence where no stream covers the column |
| `PlaybackRun.SentIsWhatTheStreamsWrote` | platform/shared/uf_tx_fill.hpp:46-80 | end to end, every real frame sent is one a flush gave the ring, each flush what its cycle's streams wrote, none left out up to the furthest reached, and a prefix of them, in order, while none was sent twice, which no run without resets does; held() counts the rest |
| `PlaybackRun.CallbackIsMixed` | platform/coreaudio/UFAudioDriver.cpp:220-258 | uninterrupted, the steps of a callback leave handler and ring as the specified callback does |
| `CaptureStage.CyclesAreAPrefixOfCapture` | platform/coreaudio/UFAudioDriver.cpp:274-291 | in every interleaving of single daemon frames, session restarts and single turns of cycles of any size, the real frames of all cycles are a prefix of the frames the daemon got into the ring, and the cycle in hand holds the last of them |
| `CaptureStage.TurnIsExact` | platform/coreaudio/UFAudioDriver.cpp:276-287 | a turn of a cycle takes the next accepted frame if a committed one is waiting, and ends the cycle exactly if none is |
| `CaptureStage.SettledIsFill` | platform/coreaudio/UFAudioDriver.cpp:274-287 | uninterrupted, the turns of a cycle come to the specified fill |
| `CaptureStage.ACycleIsServed` | platform/coreaudio/UFAudioDriver.cpp:274-291 | a cycle asked for in any reachable state and left to run holds the next accepted frames, as many as asked for or as are waiting, is over then, and counts one underrun exactly if it came up short |
| `CaptureStage.RestartLosesOnlyTheOpenSlot` | platform/daemon/uf-daemon.cpp:1172-1178 | a session restart loses the frames of the slot being filled and none that was committed |
| `CaptureStage.FillIsExact` | platform/coreaudio/UFAudioDriver.cpp:274-287 | a cycle holds exactly the next accepted frames, as many as asked for or as are waiting |
| `CaptureStage.FrameKeepsInv` | platform/daemon/uf-daemon.cpp:1599-1638 | the daemon's slot writer keeps the ring's contents equal to the accepted stream |
| `CaptureStage.CommittedSlotIsLabelled` | platform/daemon/uf-daemon.cpp:1635-1637 | a slot the daemon commits says how many frames it has and how wide the device's frames are |
| `CaptureStage.LostExactlyWhenFull` | platform/daemon/uf-daemon.cpp:1599-1638 | a frame from the device is lost exactly when eight slots' worth of frames has not been given back, and that is counted |
| `CaptureStage.StreamSeesItsColumns` | platform/coreaudio/UFAudioDriver.cpp:212-217 | every stream of a cycle gets its own columns of the same frames, and silence where the ring ran dry |
| `CaptureStage.TheRestIsSilent` | platform/coreaudio/UFAudioDriver.cpp:191-217 | a stream without a place on the ring, channels beyond its width and frames beyond the stage are handed zeros |
| `CaptureStage.InputHandler.FillStageFromRing` | platform/coreaudio/UFAudioDriver.cpp:274-291 | the fill loop puts exactly the specified frames into the stage, silence after them, and leaves the rest of the stage alone |
| `CaptureStage.InputHandler.OnReadClientInput` | platform/coreaudio/UFAudioDriver.cpp:188-218 | only the first stream of a cycle moves the ring; the buffer is filled whole, zero where the stream does not fit |
| `MixerModel.RenderFindsTheCell` | platform/shared/uf_mixer_model.hpp:124-148 | every in-range crosspoint's quadlet stands in the rendered image at the index of its address |
| `MixerModel.RenderAfterCell` | platform/shared/uf_mixer_model.hpp:124-148 | changing one cell changes exactly its own place in the rendered image |
| `MixerModel.RenderAfterOutput` | platform/shared/uf_mixer_model.hpp:124-148 | changing one output changes exactly its own place in the rendered image |
| `MixerModel.SubmixColumns` | platform/shared/uf_mixer_model.hpp:190-205 | a copied submix feeds both outputs alike from every source, a cleared one nothing, and no other output's column changes |
| `MixerModel.AdoptIsExact` | platform/shared/uf_mixer_model.hpp:264-277 | adopting a coefficient and rendering it gives it back exactly when its magnitude is at most twice unity |
| `MixerModel.ImportThenRender` | platform/shared/uf_mixer_model.hpp:264-277 | importing an image and rendering reproduces it exactly when its padding is zero and every coefficient is in range |
| `MixerModel.ShortImageIsPadded` | platform/shared/uf_mixer_model.hpp:264-277 | importing a short image is importing it padded with zeros, and leaves the stereo pairs alone |
| `MixerModel.AdoptingTheImageLosesNothing` | platform/shared/uf_mixer_model.hpp:136-148 | for every model, adopting its rendered matrix and rendering again gives the same matrix, muted-and-inverted and over-range cells included |
| `MixerModel.SaveAndLoad` | platform/shared/uf_mixer_model.hpp:224-252 | a blob save and load renders the same matrix and record mask, keeps every flag, both stereo masks and every gain up to the mixer's limit, and a second save and load changes nothing |
| `MixerModel.Shadow.SetAt` | platform/shared/uf_mixer_shadow.hpp:91-98 | a write by address changes exactly the cell of that index, and nothing outside the matrix |
| `MixerModel.Shadow.ApplyAll` | platform/shared/uf_mixer_shadow.hpp:84-88 | every cell reaches the device |
| `MixerModel.Mixer.CopySubmixColumn` | platform/shared/uf_mixer_model.hpp:190-196 | the copy loop equals the specified copy, out-of-range outputs included |
| `MixerModel.Mixer.ClearSubmixColumn` | platform/shared/uf_mixer_model.hpp:199-205 | the clear loop equals the specified clear, out-of-range outputs included |
| `MixerModel.Mixer.RenderInto` | platform/shared/uf_mixer_model.hpp:136-148 | the render loops leave exactly the specified image in the shadow |
| `MixerPump.DrainStaysCoherent` | platform/daemon/uf-daemon.cpp:1341-1419 | any in-range command keeps the patched shadow equal to a fresh render, the queue equal to the shadow, and device plus queue equal to the shadow |
| `MixerPump.SubmixStaysCoherent` | platform/daemon/uf-daemon.cpp:1341-1419 | the same for a whole-column copy or clear, cell by cell |
| `MixerPump.RunStaysCoherent` | platform/daemon/uf-daemon.cpp:1341-1435 | the same for every run of safe commands, which include the in-range ones, rate-limited write ticks and session restarts; the device's record mask equals the model's likewise, and its conf block is assembled from the settings in force |
| `MixerPump.FirstSessionIsCoherent` | platform/daemon/uf-daemon.cpp:630-642 | the first session makes the device coherent whatever its RAM held |
| `MixerPump.QuietTicksDrain` | platform/daemon/uf-daemon.cpp:1420-1435 | n pending cells drain eight a tick, and after ceil(n/8) quiet ticks the device holds the exact image |
| `MixerPump.WrittenTakesTheBudget` | platform/daemon/uf-daemon.cpp:1420-1435 | a tick writes as many cells as are pending, up to its budget |
| `MixerPump.SafeExactlyWhenCoherent` | platform/daemon/uf-daemon.cpp:1341-1419 | a command keeps coherent every coherent state that runs from a first session lead to if and only if it is in the set `Safe`, which can be checked on the command alone; a safe one keeps every coherent state coherent |
| `MixerPump.WitnessIsReachable` | platform/shared/uf_mixer_model.hpp:76-86 | the state an unsafe command breaks is one a run from a first session leads to |
| `MixerPump.UnsafeCommandBreaks` | platform/shared/uf_mixer_model.hpp:78-87 | for every command outside `Safe` a coherent state it breaks |
| `MixerPump.DrainsAgree` | platform/daemon/uf-daemon.cpp:443-485 | the no-device drain and the pump drain leave the same model, settings and matrix for every sequence of safe commands |
| `MixerCommands.DrainOneIsCommanded` | platform/daemon/uf-daemon.cpp:1341-1419 | for every in-range command: exactly the commanded crosspoint or output gets the commanded gain and keeps its flags; of flags exactly the bits under the mask become the command's; column `to` becomes column `from`, or empty; exactly the commanded pair is linked or unlinked; settings reach conf block and clock with the rate they name; everything else of the model, the settings, conf block and clock stays |
| `MixerCommands.IdleOneIsCommanded` | platform/daemon/uf-daemon.cpp:443-485 | the same of the drain with no device |
| `MixerCommands.OutOfRangeTouchesOnlyScratch` | platform/shared/uf_mixer_model.hpp:76-86 | a command out of range changes nothing of the model but its scratch cell |
| `MixerCommands.RecordMaskIsTheFlags` | platform/shared/uf_mixer_model.hpp:156-160 | in every coherent state a word of the device's record mask is one exactly when that output's loopback flag is set |
| `MixerCommands.MuteIsReversible` | platform/daemon/uf-daemon.cpp:1365-1381 | muting an output silences it and writes no record mask, and unmuting gives back the very model |
| `MixerDaemon.Daemon.Apply` | platform/daemon/uf-daemon.cpp:1341-1419 | one command of the pump's drain, on the daemon's own fields and through the model's own column loops, equals the specified step, with what the conf block and clock register are then assembled from |
| `MixerDaemon.Daemon.DrainQueue` | platform/daemon/uf-daemon.cpp:1341-1419 | the drain loop equals the specified drain and keeps coherence for safe commands |
| `MixerDaemon.Daemon.WriteDirty` | platform/daemon/uf-daemon.cpp:1420-1435 | the write loop equals the specified tick and reports how many cells it wrote |
| `MixerDaemon.Daemon.SessionStart` | platform/daemon/uf-daemon.cpp:630-642 | conf block, record mask, full render and full write equal the specified start |
| `MixerDaemon.Daemon.DrainIdle` | platform/daemon/uf-daemon.cpp:443-485 | the no-device drain on the daemon's own fields equals the specified one |
| `Servo.ClampNeverActs` | platform/daemon/uf-daemon.cpp:1839-1846 | for any sequence of samples and packets the estimate stays in its band once there is one, the debt stays strictly within one frame, and so the clamp never acts |
| `Servo.NoFrameIsLost` | platform/daemon/uf-daemon.cpp:1839-1846 | the frames delivered differ from the summed target by exactly the change in the debt, so by less than one frame plus the starting debt |
| `Servo.EngagesOnlyWhereEveryPacketIsFull` | platform/daemon/uf-daemon.cpp:1206-1213 | a sample within 60 frames of the true rate is accepted if and only if the rate is a multiple of 8000 |
| `Servo.EstimateConverges` | platform/daemon/uf-daemon.cpp:1206-1213 | under a steady rate inside the band the first sample is adopted and each later one leaves four fifths of the error |
| `Servo.OutliersAreIgnored` | platform/daemon/uf-daemon.cpp:1206-1213 | a sample outside the band changes nothing |
| `Servo.ClockServo.AddSample` | platform/daemon/uf-daemon.cpp:1206-1213 | the field update equals the specified filter and keeps the band |
| `Servo.ClockServo.FramesForPacket` | platform/daemon/uf-daemon.cpp:1839-1846 | the accumulator update equals the specified one and keeps the debt within one frame |
| `TestSignal.Decodes` | include/uf/protocol/testsig.hpp:49-71 | decoding undoes encoding, and every encoding is valid |
| `TestSignal.ValidIffEncoded` | include/uf/protocol/testsig.hpp:67-71 | the valid samples are exactly the encodings |
| `TestSignal.ReadIsFaithful` | include/uf/protocol/testsig.hpp:62-71 | a coordinate is read from its own sample and no other, silence from zero alone |
| `TestSignal.AlteredFieldShows` | include/uf/protocol/testsig.hpp:49-71 | check digits differ whenever the low channel bits, the low index bits or the high index bits alone do |
| `TestSignal.CleanIffSignal` | include/uf/protocol/testsig.hpp:118-170 | clean if and only if the column is leading zeros, then at least one sample, all that channel's signal at consecutive indices |
| `TestSignal.DeletedRunsAreCountedExactly` | include/uf/protocol/testsig.hpp:144-168 | with any number of interior runs deleted, each of at most 32766 frames, gaps and droppedFrames are the exact run count and total, and nothing else is reported |
| `TestSignal.DeletedRunsAreTallied` | include/uf/protocol/testsig.hpp:144-168 | with any number of interior runs deleted, of any length, all that is reported is what each run is taken for by its length modulo the period |
| `TestSignal.CountsAreExactIffRunsAreShort` | include/uf/protocol/testsig.hpp:144-168 | gaps and droppedFrames are the exact run count and total if and only if no deleted run is longer than 32766 frames |
| `TestSignal.GapVerdict` | include/uf/protocol/testsig.hpp:118-170 | what the analyser reports of a column with one deleted run of any length: a gap of exactly that many frames if and only if it is at most 32766, otherwise what its remainder modulo the period is taken for |
| `TestSignalFaults.AnalyserCounts` | include/uf/protocol/testsig.hpp:118-170 | of any recording: framesChecked counts the samples that carry a coordinate, wrongChannel those of another channel, notEncoded those that carry none once the leading silence is over |
| `TestSignalFaults.CountersAreTheList` | include/uf/protocol/testsig.hpp:118-170 | while no more than 64 faults are found every counter is the number of its events, and droppedFrames what the listed gaps lack |
| `TestSignalFaults.ReportIsTrue` | include/uf/protocol/testsig.hpp:118-170 | of any recording every event in the list is true of the sample it points at and of the last coordinate before it, and up to 64 faults the counters are the list's |
| `TestSignal.AnalyseRecording` | include/uf/protocol/testsig.hpp:118-170 | the analyser's loop equals the specified scan of its column, clean exactly on a signal |
| `TestSignal.Generate` | include/uf/protocol/testsig.hpp:74-80 | the generator's loops give the specified frame-major signal |
| `TestSignal.GeneratedColumnIsSignal` | include/uf/protocol/testsig.hpp:74-80 | every column of a generated buffer is its channel's signal from frame zero |
| `Wav.WavHeader` | include/uf/protocol/wav.hpp:32-53 | the pushes give the specified 44 bytes, with every derived field cut to its width |
| `Wav.HeaderDescribesTheFile` | include/uf/protocol/wav.hpp:32-53 | every field a reader finds at its canonical offset is the truth about the file: both sizes are the file's own length, block align and byte rate follow from the format, whenever they fit |
| `Wav.WriteWav` | include/uf/protocol/wav.hpp:57-71 | the writer's loops give header and samples, each its low bytes, lowest first |
| `Wav.ReadWav` | tools/uf-testsig.cpp:43-76 | the reader's loops equal the specified reading, every error included |
| `Wav.ReadsAnyLayout` | tools/uf-testsig.cpp:46-75 | whatever chunks come in whatever order, the reader finds the last format and the last data, even if the file is cut off inside its last chunk |
| `Wav.ForeignChunksDoNotMatter` | tools/uf-testsig.cpp:46-62 | a chunk the reader does not know changes nothing, wherever it stands |
| `Wav.ReturnsExactly` | tools/uf-testsig.cpp:49-62 | the reader fails to return if and only if its walk meets a chunk of size 0xFFFFFFF7 or 0xFFFFFFF8 |
| `Wav.AFileThatNeverReturns` | tools/uf-testsig.cpp:49-62 | a 44-byte RIFF/WAVE file on which it does |
| `Wav.WalkEndsWith` | tools/uf-testsig.cpp:49-62 | a walk ends with given findings if and only if no chunk on its way wraps or is data, and the last format on it, or else the findings so far, says what is wanted |
| `Wav.ReadWritten` | include/uf/protocol/wav.hpp:63-71 | what reading a written file gives for any sample width while the data fits: each sample cut to 24 bits, or the reader's reason |
| `Wav.ReadLongWritten` | tools/uf-testsig.cpp:47-75 | and beyond: nothing when the wrapped advance is zero, and the bytes the wrapped size still covers when what the walk lands on is harmless; the walk ends with the header's own findings if and only if it is |
| `Wav.RoundTripExactly` | tools/uf-testsig.cpp:47-75 | for every 24-bit recording, reading gives back what was written if and only if the data is at most 2^32 - 10 bytes, or is less than 2^32 and none of the chunk starts the wrapped sum leads to wraps or is data and the last format among them repeats the first |
| `Wav.GeneratedFileIsClean` | tools/uf-testsig.cpp:92-123 | generate, write, read and analyse is clean on every column, for every channel count the tool accepts and every length that fits |

## Left out

- Counters are unbounded: 64-bit counters do not wrap, and the 32-bit products of the cadence are small enough for every ring in use. The wrap of 32 bits is modelled where it shows, in the WAV reader and writer.
- Doubles are reals, or integers where they count frames; rounding is not modelled.
- Memory order: fences and acquire/release pairs are taken as sequentially consistent interleaving of single loads and stores.
- Register and quadlet writes succeed; a failed session start and its retry are not modelled.
- Environment switches that change a session's geometry or skip the mixer.
- `FramePipeline` takes one frame() call and one pushed frame as single steps; that the two sides of the ring may be interleaved more finely without harm is what `SpscRing` proves.
- `TxFill.release`, which nothing in the daemon calls, and the re-attachment of either handler to a new ring after a daemon restart.
- PacedTransmit.RunKeepsInv: speaks of one session; a restart rewinds both sides to the initial state.
- Servo.ClockServo.FramesForPacket: does not model the reprogramming of a transmit slot whose packet grew or shrank, a register access.
- FramePipeline.SentIsAPrefixOfAccepted: a sample index outside the slot's array, which no committed slot produces, is read as zero.
- CaptureStage.InputHandler.FillStageFromRing: a frame past a slot's array, which no slot the daemon commits claims to have, is read as silence.
- CaptureStage: a second stream that asks for more frames than the first of its cycle is handed older stage contents, as in the source; nothing more is claimed about those frames.
- MixerPump.DrainStaysCoherent: flag masks and values are the low byte of the command's fields, the only part that reaches an 8-bit flags field.
- MixerDaemon.Daemon.SessionStart: the mixer half only; channel allocation, comm-start and the isochronous contexts are hardware calls.
- Wav.ReadLongWritten: says nothing more of a file whose wrapped walk is misled than that the reader makes of it what it makes of those bytes.
- MixerPump.RunStaysCoherent: the words of the conf block and the clock register are represented by what they are assembled from; a clock source requested through the ring, which writes the same two registers, is not modelled.
- Wav.WriteWav: asks for at most 32-bit samples, since past the fourth byte the source's shift has no defined meaning.
- The control queue between socket and pump: the drained commands are an arbitrary sequence here.
- The one-shot capture and polling entry points of the driver extension.
- Decibels, pan law, meters and tone synthesis: transcendental floating point.
- PCI, PHY, bus reset, self-ID, configuration ROM and the asynchronous request engine; CoreAudio, CoreMIDI, sockets and files.
- The packet codec (24-bit samples in little-endian quadlets), register constants, control-word assembly, status decoding, channel names, command-line parsing, the terminal interface and telemetry: finite tables or single expressions that would add only easy members.
