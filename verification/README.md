# Verified model of the pendulum timing core

This project models the timing and persistence core of the Nano Every firmware, and the
two host programs that read its serial stream, and proves what they keep over whole runs.

- **Settings journal** (`Crc16`, `EepromRecord`, `EepromJournal`, `TunablesRuntime`,
  `TunableCommands`): two EEPROM slots, a commit marker written last, cell writes that can be
  refused, leave any value behind or be cut by a loss of power, and the `set`, `reset` and
  `repair` commands as transactions over memory and EEPROM.
- **Capture timeline** (`CaptureTimeline`, `BoundedRing`, `SwingCapture`, `SwingPath`): 16-bit counters, an
  overflow interrupt and its pending flag against a true tick count; interrupt rings; the
  assembly of captured edges into swing rows and their emission.
- **PPS pipeline** (`PpsEdgeFilter`, `PpsValidator`, `PpsValidatorHistory`, `Ewma`,
  `OrderStatistics`, `MedianDeviation`, `FreqDiscipliner`, `DisciplinerHistory`,
  `DisciplinerLiveness`, `DisciplinedTime`, `PpsRuntime`, `PpsRuntimeHistory`, `PpsStreams`,
  `PpsLiveness`): every component, their composition in `process_pps`, properties of arbitrary
  streams of edges and outages, and what must happen in the end: a steady train locks, and a
  holdover without pulses runs out.
- **Interval scaling** (`PpsAdjust`, `PpsLateStamps`, `PpsSpanRing`): a ring of PPS seconds and a Q32
  conversion with its rounding error.
- **Wire and capture tool** (`Decimal`, `WireRows`, `CaptureLines`, `CaptureContract`,
  `NanoCapture`): the row printer, its inverse, the metadata the two sides agree on, and the
  incremental line framer.
- **Replay worker** (`SavedState`, `ReplayWorker`): the JSON form of saved state and the
  transactional replay of committed captures.

`Words` holds the fixed-width integers and `RingWindow` the "latest n values" view of a ring.
Code that works by update is modelled by classes, arrays and loops; each method is proved
against a specification function, and the properties are proved of those functions. 32-bit
and 16-bit wrap-around is written out wherever the source relies on it.

Files are checked together: `dafny verify dfyconfig.toml`.

## What the proofs found

- Two valid EEPROM slots whose sequence numbers are equal or 2^31 apart break the slot choice:
  a failing save may then lose the configuration that loads. All other pairs are safe, a save
  that succeeds repairs the order, and no run from an erased EEPROM reaches such a pair.
- The three kinds of edge (early, accepted, late) partition the intervals only for references
  from 66667 ticks on (below 2^32 - 20000); a duplicate can pass as a sample only for references
  from 20000 to 28571.
- `isValid()` does not imply that a reference was seeded; which valid runs lack one is stated
  exactly.
- `set ppsBlendLoPpm 20000` is within the range its setter announces, yet no settings with it
  validate. It is the only such number of the sixteen parameters.
- A reference that tracks a steady train from below stops short of it by up to 63 ticks, as the
  64th of the error is rounded down; from above it comes all the way.
- Early extras leave the pipeline's state alone but do refresh its freshness stamps. A stream
  of nothing but early extras goes without an outage exactly as long as every pass comes
  within the interrupt timeout of the last interrupt and the processing timeout of the last
  edge.
- `captureResetAndReinit` restarts the tick count but not the millisecond state, so
  `platformMillis` counts back steps until the old value is passed again.
- `captureResetAndReinit` does not reset the row assembler. Exactly the row in progress spans
  the reset, with edges from both sides of it, and the first capture afterwards is passed over
  if its side is not the one awaited. All later rows are five consecutive captures exactly
  when none of the last four was dropped.
- In the interval conversion a 64-bit product wraps exactly where a single segment, in nominal
  ticks, does not fit 32 bits. An unsaturated result is then off by about 2^32 per wrap, where
  saturation was due; otherwise it is accurate. Rates of at least half the nominal one never
  wrap for segments below 2^31 ticks.
- An edge is stamped against the second in progress for up to two nominal seconds. Once that
  second has finished and as long as it is remembered, the conversion from the stamp to a later
  covered edge falls back to the raw ticks exactly when the stamp is past the end of its second.
- After a capture aborts, its closing counters depend on the chunking, and only by whether a
  chunk ended with the failing line.
- If a segment other than the last gains a record, the replayed order is no longer that of
  acquisition, exactly when a later segment already has one.

## Model

| member | source | states |
|---|---|---|
| `Crc16.ComputeCrc16` | Nano.Every/src/EEPROMConfig.cpp:230-239 | the byte and bit loops compute the checksum that the lemmas below speak about |
| `Crc16.FoldInjective` | Nano.Every/src/EEPROMConfig.cpp:230-239 | a byte step is a bijection of the 16-bit register: equal results from the same bytes mean equal registers before |
| `Crc16.TwoBytesInjective` | Nano.Every/src/EEPROMConfig.cpp:230-239 | two bytes in a row inject all sixteen of their bits into the register |
| `Crc16.AdjacentBytesDetected` | Nano.Every/src/EEPROMConfig.cpp:230-239 | two payloads of one length that differ only inside two adjacent bytes never share a checksum |
| `Crc16.FoldIsFeed` | Nano.Every/src/EEPROMConfig.cpp:230-239 | feeding bytes is feeding their bits, most significant first |
| `Crc16.SixteenBitsInjective` | Nano.Every/src/EEPROMConfig.cpp:230-239 | sixteen bits fed in a row can be recovered from the register |
| `Crc16.BurstDetected` | Nano.Every/src/EEPROMConfig.cpp:230-239 | two payloads of one length that differ only inside sixteen bits in a row, at any bit position, never share a checksum |
| `Crc16.FoldParity` | Nano.Every/src/EEPROMConfig.cpp:230-239 | the parity of the register follows the parity of everything fed into it |
| `Crc16.OddBitErrorsDetected` | Nano.Every/src/EEPROMConfig.cpp:230-239 | any corruption of an odd number of bits changes the checksum |
| `Crc16.PolynomialIs1021` | Nano.Every/src/EEPROMConfig.cpp:230-239 | the register is divided by the polynomial 0x1021 |
| `Crc16.ChecksumOfOne` | Nano.Every/src/EEPROMConfig.cpp:230-239 | a known answer: the byte 1 has the checksum 0x1021 |
| `EepromRecord.DecodeEncode` | Nano.Every/src/EEPROMConfig.cpp:83-120 | decoding an encoded payload returns the configuration |
| `EepromRecord.EncodeDecode` | Nano.Every/src/EEPROMConfig.cpp:83-120 | and every 30 bytes are the coding of exactly one configuration |
| `EepromRecord.PublishedRecordReadsBack` | Nano.Every/src/EEPROMConfig.cpp:326-355 | header, payload and commit marker as written read back as the saved configuration with its sequence number |
| `EepromRecord.AcceptedRecordWasPublished` | Nano.Every/src/EEPROMConfig.cpp:168-210 | and nothing else does: an accepted slot holds, byte for byte, the header written for its settings and number, and their payload |
| `EepromRecord.DamagedPayloadRejected` | Nano.Every/src/EEPROMConfig.cpp:198-204 | a committed record damaged within two adjacent payload bytes, within sixteen payload bits in a row, or in an odd number of payload bits, is rejected |
| `EepromJournal.SaveSparesLoadedSlot` | Nano.Every/src/EEPROMConfig.cpp:219-226 | the slot picked for saving is not the slot that loads, if and only if the sequence numbers order the slots |
| `EepromJournal.UnorderedDistances` | Nano.Every/src/EEPROMConfig.cpp:153-155 | two valid slots are unordered exactly at distance 0 and 2^31 |
| `EepromJournal.LosingTheSaveSlot` | Nano.Every/src/EEPROMConfig.cpp:219-226 | losing the slot being saved to leaves what loads unchanged, if and only if the slots were ordered |
| `EepromJournal.CompletingTheSaveSlot` | Nano.Every/src/EEPROMConfig.cpp:264-335 | completing it makes exactly the new record load, one sequence number on, across the 32-bit wrap and from any two slots |
| `EepromJournal.AdjacentIsOrdered` | Nano.Every/src/EEPROMConfig.cpp:153-155 | consecutive sequence numbers, modulo 2^32, always order the slots |
| `EepromJournal.ErasedIsOrdered` | Nano.Every/src/EEPROMConfig.cpp:264-309 | an erased EEPROM loads nothing and satisfies the invariant of every run |
| `EepromJournal.UnpublishedLoadsTheSame` | Nano.Every/src/EEPROMConfig.cpp:264-309 | a save that never set its marker changes nothing that loads |
| `EepromJournal.PublishedLoadsTheNew` | Nano.Every/src/EEPROMConfig.cpp:264-309 | a save that did makes the new configuration load and leaves consecutive sequence numbers |
| `EepromJournal.EepromConfig.Update` | Nano.Every/src/EEPROMConfig.cpp:163-167 | one cell write that may be skipped as equal, succeed, be refused, or be cut by a loss of power |
| `EepromJournal.EepromConfig.UpdateBytes` | Nano.Every/src/EEPROMConfig.cpp:163-167 | a range of cell writes touches nothing else and never rewrites an equal cell, so the clear marker inside the header stays clear |
| `EepromJournal.EepromConfig.VerifyBytes` | Nano.Every/src/EEPROMConfig.cpp:344-350 | true exactly when every cell holds the expected byte |
| `EepromJournal.EepromConfig.StageRecord` | Nano.Every/src/EEPROMConfig.cpp:338-350 | under any faults, either nothing was written or the slot is marked uncommitted |
| `EepromJournal.EepromConfig.WriteRecord` | Nano.Every/src/EEPROMConfig.cpp:338-352 | success means the whole record is in place and committed; failure means untouched or uncommitted |
| `EepromJournal.EepromConfig.SaveConfig` | Nano.Every/src/EEPROMConfig.cpp:311-355 | under any sequence of refused writes and power cuts: success loads the new configuration with the next sequence number; otherwise, if the slots were ordered, exactly the old one; without faults success if and only if the configuration is valid |
| `EepromJournal.EepromConfig.LoadConfig` | Nano.Every/src/EEPROMConfig.cpp:264-309 | returns the newer valid slot, the sequence number to continue from and the diagnosis of both slots |
| `EepromJournal.EepromConfig.RepairEeprom` | Nano.Every/src/EEPROMConfig.cpp:357-362 | never changes what loads; success leaves two valid slots; without faults success if and only if something loads |
| `TunablesRuntime.NormalizeKeepsValid` | Nano.Every/src/TunablesRuntime.cpp:23-101 | normalising a validated configuration is the identity |
| `TunablesRuntime.ReadersSeeTheSettings` | Nano.Every/src/TunablesRuntime.cpp:23-101 | every reader of validated settings gets the setting of its own name |
| `TunableCommands.DefaultsAreValid` | Nano.Every/src/TunablesRuntime.cpp:103-121 | the defaults pass validation and are normal |
| `TunableCommands.AssignOnlySets` | Nano.Every/src/EEPROMConfig.cpp:26-41 | for each of the sixteen parameters: an edit sets the bytes at the offset of its field to the new number, low byte first, and leaves all other bytes of the payload |
| `TunableCommands.RefusedOnlyIfInconsistent` | Nano.Every/src/EEPROMConfig.cpp:124-148 | a value that the setter takes can only be refused for putting a pair of settings out of order |
| `TunableCommands.SettersTakeWhatCanBeValid` | Nano.Every/src/TunableRegistry.cpp:124-300 | a setter takes exactly the numbers its parameter has in some settings that validate, except that blendLo also takes 20000 |
| `TunableCommands.Firmware.LoadAtBoot` | Nano.Every/src/PendulumCore.cpp:186-189 | after boot the live settings are valid and are what the journal holds, or the defaults |
| `TunableCommands.Firmware.ApplyConfig` | Nano.Every/src/EEPROMConfig.cpp:256-262 | assigns the settings and normalises them |
| `TunableCommands.Firmware.HandleSet` | Nano.Every/src/TunableCommands.cpp:134-173 | accepted: memory and EEPROM hold the edit, which changes the bytes of that parameter in the stored payload to the number typed and no others; refused for any reason: both are as before; without faults accepted if and only if the text parses and the edit validates |
| `TunableCommands.Firmware.HandleReset` | Nano.Every/src/TunableCommands.cpp:175-205 | the same transaction for the defaults |
| `TunableCommands.Firmware.HandleRepair` | Nano.Every/src/TunableCommands.cpp:207-219 | success means two valid slots; live and stored settings stay either way |
| `TunableCommands.Firmware.RebootFirmware` | Nano.Every/src/PendulumCore.cpp:186-189 | a reboot at any moment finds the settings it left |
| `TunableCommands.Firmware.ProcessCommands` | Nano.Every/src/TunableCommands.cpp:134-219 | after any session of commands, refused writes, power cuts and reboots the live settings are the fold of the accepted commands, valid, and what the next boot loads; and two valid slots stay one sequence number apart |
| `CaptureTimeline.LatencyIsExact` | Nano.Every/src/PendulumCapture.cpp:108-128 | the 16-bit counter difference is the true latency whenever that is below one counter period |
| `CaptureTimeline.Timebase.Elapse` | Nano.Every/src/PendulumCapture.cpp:82-128 | the counter may wrap at any point of a read sequence, with at most one overflow pending |
| `CaptureTimeline.Timebase.OverflowIsr` | Nano.Every/src/PendulumCapture.cpp:454-458 | the overflow interrupt keeps the software counts equal to the true counter periods |
| `CaptureTimeline.Timebase.ReadCoherentPair` | Nano.Every/src/PendulumCapture.cpp:88-118 | counter pair and epoch belong together on both branches of the pending-overflow test |
| `CaptureTimeline.Timebase.ReconstructEdge` | Nano.Every/src/PendulumCapture.cpp:108-128 | the reconstructed edge is the true capture tick less the filter delay, modulo 2^32, whenever the latency at the pair that is kept is below 65536 ticks; the reported time is the true one at that pair and the reported latency the ticks since the capture |
| `CaptureTimeline.Timebase.NowCoherent` | Nano.Every/src/PendulumCapture.cpp:226-239 | the 32-bit and 48-bit readers return the true time modulo their widths, taken inside the call |
| `CaptureTimeline.Timebase.PlatformMillis` | Nano.Every/src/PlatformTime.cpp:40-52 | never steps back below 2^48 ticks; a back step is counted and not remembered otherwise |
| `CaptureTimeline.Timebase.RestartStepsBack` | Nano.Every/src/PlatformTime.cpp:40-52 | at any time after a restart of the timer, with the overflow interrupts served, the next reading is a back step if and only if its milliseconds are below the value remembered at the restart |
| `CaptureTimeline.Timebase.ReadingsAfterRestart` | Nano.Every/src/PlatformTime.cpp:40-52 | of all readings in the 2^48 ticks after a restart exactly those below that value are counted as back steps |
| `BoundedRing.StoredAfterPush` | Nano.Every/src/PendulumCapture.cpp:504-516 | a write at the head of a ring appends one element, also where the indices wrap |
| `BoundedRing.StoredAfterPop` | Nano.Every/src/PendulumCapture.cpp:301-316 | advancing the tail removes exactly the oldest element |
| `BoundedRing.Ring.Push` | Nano.Every/src/SwingAssembler.cpp:28-43 | stores in order, or drops the new element when one slot is left, never disturbing what is stored |
| `BoundedRing.Ring.Pop` | Nano.Every/src/PendulumCapture.cpp:301-316 | hands out the oldest element |
| `BoundedRing.Ring.Peek` | Nano.Every/src/SwingAssembler.cpp:45-67 | shows the oldest element without taking it |
| `SwingCapture.IrCapture.Reset` | Nano.Every/src/PendulumCapture.cpp:130-159 | a software reset empties the ring and starts sides and counts over |
| `SwingCapture.IrCapture.CaptureIsr` | Nano.Every/src/PendulumCapture.cpp:471-520 | every capture advances the side; it is stored if and only if a slot is free, otherwise counted as dropped |
| `SwingCapture.IrCapture.TryPopEdge` | Nano.Every/src/PendulumCapture.cpp:301-316 | edges come out in capture order with the side of their capture |
| `SwingCapture.IrCapture.CapturesAreConserved` | Nano.Every/src/PendulumCapture.cpp:301-316 | captures since the reset = delivered + still in the ring + counted as dropped, modulo 2^32 |
| `SwingCapture.SwingAssembler.RowsAreConserved` | Nano.Every/src/SwingAssembler.cpp:28-78 | completed rows = sent + waiting + counted as dropped, modulo 2^32 |
| `SwingCapture.RowsShareEdges` | Nano.Every/src/SwingAssembler.cpp:102-147 | a row's last edge is the next row's first and the numbers are consecutive modulo 2^32 |
| `SwingCapture.SwingAssembler.PushRow` | Nano.Every/src/SwingAssembler.cpp:28-43 | a completed row is queued, in order, if and only if fewer than seven wait; otherwise it is counted as dropped |
| `SwingCapture.SwingAssembler.RowIsDroppedIffFull` | Nano.Every/src/SwingAssembler.cpp:28-43 | in every reachable state the completed rows that were dropped are exactly those that seven rows were waiting at |
| `SwingCapture.SwingAssembler.FinishRow` | Nano.Every/src/SwingAssembler.cpp:136-144 | the fifth boundary completes the row, offers it to the queue and is the first of the next |
| `SwingCapture.SwingAssembler.ProcessEdge` | Nano.Every/src/SwingAssembler.cpp:102-147 | an edge of the awaited side becomes the next boundary, any other is ignored; row n is boundaries 4n to 4n+4 and has number n+1, and is queued exactly when fewer than seven wait |
| `SwingPath.SwingFeed.Capture` | Nano.Every/src/PendulumCapture.cpp:471-520 | a capture interrupt at any moment, also inside a drain, changes no boundary, and is stored exactly when a slot is free |
| `SwingPath.FirstOnesAreStored` | Nano.Every/src/PendulumCapture.cpp:471-520 | of captures that arrive together the first ones are stored, as many as there are free slots |
| `SwingPath.SwingFeed.CaptureReset` | Nano.Every/src/PendulumCapture.cpp:130-159 | a capture reset at run time starts captures over and leaves the row in progress as it is |
| `SwingPath.SwingFeed.ProcessEdges` | Nano.Every/src/SwingAssembler.cpp:102-147 | with any captures arriving before every look into the ring, the drain ends when it is found empty and has made boundaries of exactly the stored edges, in order; which arrivals are stored, and which rows completed meanwhile are queued, follow from the free slots alone |
| `SwingPath.SwingFeed.EmitRows` | Nano.Every/src/PendulumCore.cpp:501-530 | emission leaves captures and boundaries alone; the rows that waited are those sent, in order, and those still waiting |
| `SwingPath.BoundariesCompose` | Nano.Every/src/SwingAssembler.cpp:102-147 | delivering edges in two drains is delivering them in one |
| `SwingCapture.SwingAssembler.EmitRows` | Nano.Every/src/PendulumCore.cpp:501-530 | rows leave in order, each only after its send succeeded, and the loop stops early only when nothing is queued, output is not ready, or a send failed, which is counted |
| `SwingCapture.SwingAssembler.RetireOldest` | Nano.Every/src/SwingAssembler.cpp:69-78 | retires exactly the oldest queued row |
| `SwingPath.BoundariesByPosition` | Nano.Every/src/SwingAssembler.cpp:102-147 | from any boundaries so far, which captures become boundaries depends only on which are delivered and on the side awaited |
| `SwingPath.BoundariesAreGreedy` | Nano.Every/src/SwingAssembler.cpp:102-147 | the first is the first delivered capture of the awaited side, each next the first delivered one of the other side |
| `SwingPath.RowIsContiguous` | Nano.Every/src/SwingAssembler.cpp:102-147 | a row is five consecutive captures if and only if its first boundary is no older than the last reset and the four captures after it were delivered |
| `SwingPath.SwingFeed.RowEdges` | Nano.Every/src/SwingAssembler.cpp:102-147 | in every reachable state each edge of a completed row is one from before the last capture reset or the capture its place calls for |
| `SwingPath.SwingFeed.RowIsFiveCaptures` | Nano.Every/src/SwingAssembler.cpp:102-147 | in every reachable state a completed row is five consecutive captures if and only if it begins after the last reset and none of the four captures after its first was dropped |
| `SwingPath.SwingFeed.RowSpansReset` | Nano.Every/src/SwingAssembler.cpp:102-147 | in every reachable state exactly the row in progress at the last reset spans it, going on with the first stored capture of the side awaited then |
| `SwingPath.NothingDropped` | Nano.Every/src/SwingAssembler.cpp:102-147 | with nothing dropped every capture becomes a boundary, except the first if it is of the side not awaited |
| `SwingPath.ResetInMidRow` | Nano.Every/src/SwingAssembler.cpp:102-147 | a reset after the first edge of a row: the row spans it, and the first capture after it is passed over |
| `PpsEdgeFilter.EdgeFilter.Observe` | Nano.Every/src/PpsEdgeFilter.h:19-38 | the sample and the candidate edge kept for the next one |
| `PpsEdgeFilter.KindsPartition` | Nano.Every/src/PpsEdgeFilter.h:19-38 | early, accepted and late partition all intervals if and only if the reference is at least 66667 and below 2^32 - 20000, or is 0 on a nominal clock that is a multiple of ten |
| `PpsEdgeFilter.EarlyExtrasLeaveTheCandidate` | Nano.Every/src/PpsEdgeFilter.h:19-38 | no early extra moves the candidate, exactly for references of at least 20000 and below 2^32 - 20000 |
| `PpsEdgeFilter.DuplicatesAreEarly` | Nano.Every/src/PpsEdgeFilter.h:19-38 | every duplicate is an early extra, exactly for references below 20000 or from 28572 on |
| `PpsValidator.MeanBetween` | Nano.Every/src/PpsValidator.cpp:85-87 | a running integer mean stays between the mean and the sample |
| `PpsValidator.CountsOfPermutation` | Nano.Every/src/PpsValidator.cpp:160-171 | health counts do not depend on where the ring starts |
| `PpsValidator.Validator.ClassifyInterval` | Nano.Every/src/PpsValidator.cpp:46-64 | the class of an interval against the reference or the nominal clock |
| `PpsValidator.Validator.GetHealth` | Nano.Every/src/PpsValidator.cpp:160-171 | counts each class among the remembered samples |
| `PpsValidator.Validator.SeedStep` | Nano.Every/src/PpsValidator.cpp:76-110 | three consistent near-nominal intervals seed the reference with their running mean |
| `PpsValidator.ThreeSeed` | Nano.Every/src/PpsValidator.cpp:76-110 | three agreeing near-nominal intervals seed the reference with their average, rounded down by at most one tick |
| `PpsValidator.Validator.TrackStep` | Nano.Every/src/PpsValidator.cpp:112-121 | streak, gap handling, and the reference moving by the floored 64th of its error in wrapping 32-bit arithmetic |
| `PpsValidator.Validator.RecoverStep` | Nano.Every/src/PpsValidator.cpp:123-152 | three consistent near-nominal intervals replace a reference that ran away upward |
| `PpsValidator.ThreeRecover` | Nano.Every/src/PpsValidator.cpp:123-152 | three agreeing near-nominal intervals, and not two, replace a reference too large by more than half the clock by their average, and end validity |
| `PpsValidator.Validator.ObserveSample` | Nano.Every/src/PpsValidator.cpp:66-158 | one observation takes the whole validator, its ring included, to the specified next state |
| `PpsValidator.Validator.Reset` | Nano.Every/src/PpsValidator.cpp:28-44 | forgets everything |
| `PpsValidatorHistory.RingHoldsTheLatest` | Nano.Every/src/PpsValidator.cpp:66-158 | after any run the ring holds exactly the last min(count, 60) classes in order |
| `PpsValidatorHistory.ValidityIsEarned` | Nano.Every/src/PpsValidator.cpp:154-157 | validity implies fewer than two hard glitches among those and five accepted samples in a row since the last gap |
| `PpsValidatorHistory.ValidIffEarned` | Nano.Every/src/PpsValidator.cpp:112-157 | after any run validity holds if and only if it was earned: by a streak of five with no gap, no reseed and fewer than two remembered hard glitches ever since, whatever the 16-bit streak counter did |
| `PpsValidatorHistory.ReferenceIffSeeded` | Nano.Every/src/PpsValidator.cpp:76-110 | after any run a reference is in use if and only if three consecutive near-nominal intervals each joined the running candidate |
| `PpsValidatorHistory.UnreferencedState` | Nano.Every/src/PpsValidator.cpp:106-157 | without a reference, validity is exactly a streak of five with no gap and fewer than two remembered hard glitches ever since, whatever the 16-bit streak counter did |
| `PpsValidatorHistory.ValidUnreferencedRuns` | Nano.Every/src/PpsValidator.cpp:66-158 | exactly which runs are valid without a reference |
| `PpsValidatorHistory.ValidWithoutReference` | Nano.Every/src/PpsValidator.cpp:66-158 | such a run: five disagreeing intervals, each classified as accepted |
| `PpsValidatorHistory.TrackMovesA64th` | Nano.Every/src/PpsValidator.cpp:112-121 | an accepted interval moves the reference by a 64th of its distance, rounded down |
| `PpsValidatorHistory.ReferenceSettles` | Nano.Every/src/PpsValidator.cpp:112-121 | a steady train draws the reference to within 64 ticks below its interval, in at most as many samples as it was ticks away, and holds it there |
| `RingWindow.PushKeepsLatest` | Nano.Every/src/PpsValidator.cpp:69-71 | writing at the head keeps the latest values and forgets the oldest |
| `Ewma.UpdateFrequency` | Nano.Every/src/FreqDiscipliner.cpp:10-16 | one update with no 64-bit overflow, the returned frequency rounded to nearest |
| `Ewma.StepBetween` | Nano.Every/src/FreqDiscipliner.cpp:10-16 | an update moves toward the sample by exactly the shifted error and never past it |
| `Ewma.StepInHull` | Nano.Every/src/FreqDiscipliner.cpp:10-16 | samples within bounds keep state and output within them |
| `Ewma.LargeErrorShrinks` | Nano.Every/src/FreqDiscipliner.cpp:10-16 | an error of at least 2^shift strictly shrinks |
| `Ewma.HalvesIn` | Nano.Every/src/FreqDiscipliner.cpp:10-16 | an error of at least 2^(shift+1) halves within 2^(shift+1) samples |
| `Ewma.SettledForever` | Nano.Every/src/FreqDiscipliner.cpp:10-16 | below 2^shift the state is frozen and the output is exactly the sample, forever |
| `Ewma.SettlesInTime` | Nano.Every/src/FreqDiscipliner.cpp:10-16 | from any state a constant input is returned exactly from (47-shift)*2^(shift+1) + 2^shift samples on |
| `OrderStatistics.SortSorts` | Nano.Every/src/FreqDiscipliner.cpp:22-33 | insertion sorts and permutes |
| `OrderStatistics.SortedIsUnique` | Nano.Every/src/FreqDiscipliner.cpp:22-33 | sorted order is determined by the multiset of values |
| `OrderStatistics.KthByCounting` | Nano.Every/src/PendulumTelemetry.cpp:67-95 | the k-th order statistic is the one value with at most k values below it and more than k not above it |
| `OrderStatistics.InsertCell` | Nano.Every/src/FreqDiscipliner.cpp:22-33 | one insertion of the in-place sort |
| `OrderStatistics.Median` | Nano.Every/src/FreqDiscipliner.cpp:22-33 | sorts the first n cells in place and returns order statistic n/2 |
| `OrderStatistics.CutSorts` | Nano.Every/src/PendulumTelemetry.cpp:67-95 | a value with nothing greater before it and nothing smaller after it is in place |
| `OrderStatistics.Partition` | Nano.Every/src/PendulumTelemetry.cpp:71-87 | one partition about the middle pivot, as a permutation |
| `OrderStatistics.SelectKth` | Nano.Every/src/PendulumTelemetry.cpp:67-95 | permutes in place, terminates without 8-bit underflow and returns the k-th order statistic |
| `OrderStatistics.Rank` | Nano.Every/src/PendulumTelemetry.cpp:97-100 | the ceiling rank of a percentile, without 16-bit overflow |
| `OrderStatistics.PercentileExact` | Nano.Every/src/PendulumTelemetry.cpp:97-100 | the order statistic of that rank |
| `MedianDeviation.MadFromResiduals` | Nano.Every/src/FreqDiscipliner.cpp:40-53 | the median distance of the magnitudes from their own median, through two in-place sorts of a scratch array |
| `MedianDeviation.MadOfRing` | Nano.Every/src/FreqDiscipliner.cpp:138-152 | the spread does not depend on where the residual ring starts |
| `FreqDiscipliner.Discipliner.GateStep` | Nano.Every/src/FreqDiscipliner.cpp:88-112 | transitions on the pulse train becoming valid or invalid |
| `FreqDiscipliner.Discipliner.AverageStep` | Nano.Every/src/FreqDiscipliner.cpp:116-129 | both averages, their disagreement in ppm and the blend between them |
| `FreqDiscipliner.Discipliner.ResidualStep` | Nano.Every/src/FreqDiscipliner.cpp:131-152 | the new residual joins the last 31 and the spread is that of the ring |
| `FreqDiscipliner.Discipliner.LockStep` | Nano.Every/src/FreqDiscipliner.cpp:161-177 | lock streak, and locking on it after the acquire time |
| `FreqDiscipliner.Discipliner.UnlockStep` | Nano.Every/src/FreqDiscipliner.cpp:179-205 | the slow rate is applied while disciplined, and bad samples in a row unlock |
| `FreqDiscipliner.Discipliner.ExpireStep` | Nano.Every/src/FreqDiscipliner.cpp:208-219 | the frozen rate in holdover, its expiry, and cleared streaks |
| `FreqDiscipliner.Discipliner.Observe` | Nano.Every/src/FreqDiscipliner.cpp:87-220 | one call takes the whole machine to the specified next state; a sample that is not both valid and accepted is not evaluated |
| `FreqDiscipliner.Discipliner.Reset` | Nano.Every/src/FreqDiscipliner.cpp:57-85 | the initial state |
| `FreqDiscipliner.BlendBetween` | Nano.Every/src/FreqDiscipliner.cpp:124-129 | the blended rate lies between the slow and the fast one |
| `FreqDiscipliner.BlendMoves` | Nano.Every/src/FreqDiscipliner.cpp:124-129 | weight 0 is the slow rate, full weight the fast one, and more weight never leads away from the fast one |
| `FreqDiscipliner.WeightGrows` | Nano.Every/src/FreqDiscipliner.cpp:122-127 | more disagreement never means less weight; none up to the lower bound, full from the upper one on |
| `FreqDiscipliner.DisagreementIsRelative` | Nano.Every/src/FreqDiscipliner.cpp:119-120 | the disagreement is below p ppm exactly when the two rates differ by less, as long as it fits 32 bits |
| `DisciplinerHistory.AlwaysRecorded` | Nano.Every/src/FreqDiscipliner.cpp:87-220 | after any run the timers and streaks say when the state was entered and how many evaluated samples passed or failed since |
| `DisciplinerHistory.LockIsEarned` | Nano.Every/src/FreqDiscipliner.cpp:161-177 | a call locks if and only if the acquire time has passed since the last entry to ACQUIRE and the last lockCount evaluated samples since then, this one included, all passed |
| `DisciplinerHistory.LockTakesTime` | Nano.Every/src/FreqDiscipliner.cpp:170-177 | and that time has then passed in true milliseconds, however the 32-bit clock turned |
| `DisciplinerHistory.UnlockIsEarned` | Nano.Every/src/FreqDiscipliner.cpp:179-205 | a call unlocks if and only if unlockCount evaluated samples in a row since the lock failed, the locking sample not among them |
| `DisciplinerHistory.ValidityMoves` | Nano.Every/src/FreqDiscipliner.cpp:94-112 | FREE_RUN and HOLDOVER acquire if and only if the pulse train is valid; ACQUIRE and DISCIPLINED are left for FREE_RUN and HOLDOVER if and only if it is not |
| `DisciplinerHistory.HoldoverEnds` | Nano.Every/src/FreqDiscipliner.cpp:208-213 | after any run: while no later call sees a valid train, the state is HOLDOVER up to the first call more than the holdover time after the one that entered it, and FREE_RUN from that call on |
| `DisciplinerLiveness.PassesMeans` | Nano.Every/src/FreqDiscipliner.cpp:161-196 | a sample passes when its two averages differ relatively by less than the lock limit, its spread is below the lock limit and nothing was wrong with it, and fails when one is beyond the unlock limit |
| `DisciplinerLiveness.ResidualIsOfTheAppliedRate` | Nano.Every/src/FreqDiscipliner.cpp:131-152 | the residual remembered of a sample is its error against the rate applied after it, unless the sample locks |
| `DisciplinerLiveness.SteadyIsExact` | Nano.Every/src/FreqDiscipliner.cpp:116-152 | whatever the averages were, a steady train makes both exact after the settling time, and the next residual zero |
| `DisciplinerLiveness.SteadyIsQuiet` | Nano.Every/src/FreqDiscipliner.cpp:116-152 | and 31 samples later the spread is zero |
| `DisciplinerLiveness.SteadyTrainLocks` | Nano.Every/src/FreqDiscipliner.cpp:87-220 | from FREE_RUN or HOLDOVER, with estimates however wrong, a steady valid train ends in DISCIPLINED at exactly its rate, once lockCount samples have come after the quiet one and the acquire time has passed |
| `DisciplinedTime.Exporter.Follow` | Nano.Every/src/DisciplinedTime.cpp:32-99 | one sync of the exported rate to the discipliner |
| `DisciplinedTime.GraceBegins` | Nano.Every/src/DisciplinedTime.cpp:36-60 | an unlock on a valid train begins a grace at that moment, at the slow rate |
| `DisciplinedTime.GraceEnds` | Nano.Every/src/DisciplinedTime.cpp:36-96 | over any run of syncs while acquiring, the grace and its rate last up to the first sync at or past its time and are over from then on, when the blended rate is exported |
| `PpsRuntime.Pipeline.HandleCapture` | Nano.Every/src/PendulumCore.cpp:353-429 | one captured edge through filter, validator, discipliner, exporter and status |
| `PpsRuntime.Pipeline.CheckFreshness` | Nano.Every/src/PendulumCore.cpp:228-266 | staleness of interrupts and of processing, and the outage it declares |
| `PpsRuntime.Pipeline.HandleOutage` | Nano.Every/src/PendulumCore.cpp:255-266 | an outage forgets health, tells the discipliner and reports NO_PPS |
| `PpsRuntime.Pipeline.ProcessPps` | Nano.Every/src/PendulumCore.cpp:228-431 | a pass is the freshness check and then at most the budget of queued edges in order |
| `PpsRuntime.Pipeline.ResetState` | Nano.Every/src/PendulumCore.cpp:74-112 | the reset after a settings change keeps only the unprimed candidate edge |
| `PpsRuntimeHistory.StepKeepsRates` | Nano.Every/src/FreqDiscipliner.cpp:94-220 | one call: applied, slow and last-good rates agree while disciplined, and holdover keeps the applied rate |
| `PpsRuntimeHistory.SyncAgrees` | Nano.Every/src/DisciplinedTime.cpp:32-99 | the export equals the applied rate except in NOMINAL and SLOW_GRACE |
| `PpsRuntimeHistory.AlwaysConsistent` | Nano.Every/src/PendulumCore.cpp:228-431 | in every run LOCKED iff DISCIPLINED, ACQUIRING iff ACQUIRE, and the export agrees with the mode |
| `PpsRuntimeHistory.GraceHoldsTheUnlockingRate` | Nano.Every/src/DisciplinedTime.cpp:36-88 | grace starts only by an unlock, at the slow rate of the unlocking sample |
| `PpsStreams.HoldoverFreezesTheRate` | Nano.Every/src/FreqDiscipliner.cpp:99-112 | throughout a stretch of holdover, however long, the applied and the exported rate stay what the applied rate was when it was entered |
| `PpsStreams.GraceHoldsTheRate` | Nano.Every/src/DisciplinedTime.cpp:36-96 | throughout a stretch of grace, however long, the exported rate does not move |
| `PpsStreams.EarlyExtrasLeaveNoTrace` | Nano.Every/src/PendulumCore.cpp:353-429 | taking every early extra out of a stream of edges and outages leaves filter, validator, discipliner, export and status as they were |
| `PpsStreams.EarlyExtrasHideAnOutage` | Nano.Every/src/PendulumCore.cpp:228-266 | in a stream of passes whose edges are all early extras no outage is declared, and status, rates and validity stay, if and only if every pass, with an edge or without, comes within the interrupt timeout of the last interrupt seen and the processing timeout of the last edge taken |
| `PpsStreams.AcceptedIntervalsTelescope` | Nano.Every/src/PendulumCore.cpp:353-381 | between primings and outages the accepted and the late intervals sum, modulo 2^32, to the distance the candidate moved |
| `PpsStreams.LateEdgeIsCandidate` | Nano.Every/src/PpsEdgeFilter.h:33-38 | a late edge, whatever was missed before it, becomes the candidate; it is not accepted and leaves the reference |
| `PpsStreams.MissedPulseRecovers` | Nano.Every/src/PpsEdgeFilter.h:19-38 | the next edge within the glitch band of the reference is then sampled with its true interval and accepted |
| `PpsStreams.SeededRecoveryIdle` | Nano.Every/src/PpsValidator.cpp:123-152 | with a reference in use and a clock of at least 100 kHz an interval that is not early never counts toward recovery |
| `PpsStreams.FreshRecoveryIdle` | Nano.Every/src/PpsValidator.cpp:123-152 | nor does the interval that seeds one |
| `PpsStreams.ObserveStaysAnchored` | Nano.Every/src/PpsValidator.cpp:66-158 | one observation keeps the reference within the accepted intervals and the recovery reseed idle |
| `PpsStreams.ReferenceStaysAnchored` | Nano.Every/src/PendulumCore.cpp:353-381 | over every stream a reference in use lies between the smallest and largest interval accepted since the last reset, and the recovery reseed never fires |
| `PpsStreams.UsualIntervalsLeaveNoTrace` | Nano.Every/src/PendulumCore.cpp:353-429 | from a reset on it is enough for that, that no accepted interval is within 20000 ticks of either end of 32 bits |
| `PpsStreams.NoDuplicateIsObserved` | Nano.Every/src/PpsEdgeFilter.h:23-28 | with a reference below 20000 or from 28572 on no duplicate reaches the health ring |
| `PpsLiveness.OutageForgets` | Nano.Every/src/PendulumCore.cpp:255-266 | an outage forgets the pulses before it: the discipliner runs free or holds, and the next edge is only the candidate |
| `PpsLiveness.OutageEndsLock` | Nano.Every/src/PendulumCore.cpp:255-266 | one that ends a lock begins a holdover at that moment, exporting the slow rate |
| `PpsLiveness.MissedPulseEndsLock` | Nano.Every/src/PendulumCore.cpp:353-429 | an edge more than seven tenths of a reference too late ends a lock at once: validity lost, status HOLDOVER, the slow rate exported, the edge the next candidate |
| `PpsLiveness.HoldoverRunsOut` | Nano.Every/src/FreqDiscipliner.cpp:208-213 | over any run of outages that rate is exported up to the first later than the holdover time, and the nominal one from then on, for good |
| `PpsLiveness.TrainIsFollowed` | Nano.Every/src/PendulumCore.cpp:353-429 | after an outage each pulse of a steady train is accepted, is the next candidate, and seeds the validator with exactly its interval |
| `PpsLiveness.SteadyPulsesLock` | Nano.Every/src/PendulumCore.cpp:353-429 | a steady train of pulses on the 32-bit tick counter locks the whole pipeline, whatever its estimates: status LOCKED, and the exported rate exactly its interval |
| `PpsAdjust.TermWithinOneTick` | Nano.Every/src/PpsAdjust.cpp:39-44 | rounding the Q32 scale and then the product is less than one tick from ticks * nominal / hz |
| `PpsAdjust.TermIsAccurateIffFits` | Nano.Every/src/PpsAdjust.cpp:245-246 | and is so if and only if the 64-bit product does not wrap |
| `PpsAdjust.TagIsExact` | Nano.Every/src/PpsAdjust.cpp:58-83 | within one turn of the clock an edge is tagged if and only if it is covered, with the second it falls in and its true offset |
| `PpsAdjust.PiecesSumToElapsed` | Nano.Every/src/PpsAdjust.cpp:204-236 | the segments of an interval sum to its true length |
| `PpsAdjust.TaggedIntervalConverts` | Nano.Every/src/PpsAdjust.cpp:188-258 | between two tagged edges of contiguous seconds the loop never falls back and adds exactly those segments |
| `PpsAdjust.TotalWithinOneTickEach` | Nano.Every/src/PpsAdjust.cpp:245-246 | a sum of converted segments is less than one tick per segment from the exact rational sum |
| `PpsAdjust.TotalIsAccurateIffAllFit` | Nano.Every/src/PpsAdjust.cpp:245-246 | a sum is within one tick a segment if and only if no product wraps, and a product wraps only where the exact sum is beyond 32 bits |
| `PpsAdjust.ConversionIsAccurate` | Nano.Every/src/PpsAdjust.cpp:188-258 | an unsaturated conversion is within (boundaries + 1) ticks of the exact sum if and only if no 64-bit product wraps |
| `PpsAdjust.TaggedEdgesConvert` | Nano.Every/src/PpsAdjust.cpp:165-258 | for two covered edges at any true times the two tags name their seconds, and converting the ticks between them is accurate in that sense |
| `PpsAdjust.NominalRateIsIdentity` | Nano.Every/src/PpsAdjust.cpp:39-44 | at the nominal rate the scale is exactly one |
| `PpsAdjust.NominalIntervalUnchanged` | Nano.Every/src/PpsAdjust.cpp:188-258 | an interval over nominal seconds comes back unchanged |
| `PpsAdjust.TermSplits` | Nano.Every/src/PpsAdjust.cpp:245-246 | two parts of a segment convert to within one tick of the whole if and only if their wrapped products lose as many turns as its does, as when it fits |
| `PpsAdjust.SplittingCostsAtMostOneTick` | Nano.Every/src/PpsAdjust.cpp:165-258 | for three covered edges at any true times the conversions up to the middle one and from it on add up to the whole conversion within one tick if the split second loses alike, and without saturation only if it does |
| `PpsLateStamps.RunKeepsSecond` | Nano.Every/src/PpsAdjust.cpp:141-163 | while it is remembered, a second keeps its number, its true start and its end over any run of further seconds |
| `PpsLateStamps.RunKeepsRates` | Nano.Every/src/PpsAdjust.cpp:141-163 | and is remembered at the rate reported as applied during it, while the second in progress goes by the one reported as next |
| `PpsLateStamps.LateStampConverts` | Nano.Every/src/PpsAdjust.cpp:188-258 | from a stamp of any offset in a finished second to a covered edge the conversion falls back if and only if the offset is past the end of that second, and is accurate otherwise |
| `PpsLateStamps.OpenStampConverts` | Nano.Every/src/PpsAdjust.cpp:58-258 | an edge stamped in the open window and converted any number of seconds later succeeds if and only if it was no later than the PPS edge that ended its second, and is then accurate for the true pieces |
| `PpsAdjust.SlowRatesWrap` | Nano.Every/src/PpsAdjust.cpp:188-258 | a conversion that wraps: 300 ticks at 1 Hz give 505032704 where the exact sum is 4.8e9 |
| `PpsAdjust.UsualRatesFit` | Nano.Every/src/PpsAdjust.cpp:245-246 | and never does for rates of at least half the nominal one and segments below 2^31 ticks |
| `PpsAdjust.FinalizeKeepsContiguous` | Nano.Every/src/PpsAdjust.cpp:141-163 | finished seconds stay contiguous, numbered and scaled while each starts where the last ended |
| `PpsAdjust.PrimingStartsContiguous` | Nano.Every/src/PpsAdjust.cpp:133-139 | priming an empty record starts that invariant |
| `PpsSpanRing.TurnsAreBounded` | Nano.Every/src/PpsAdjust.cpp:46-56 | no more consecutive seconds can be found than are remembered, so the 32-bit loop counter never wraps |
| `PpsSpanRing.SpanRing.OnPpsFinalized` | Nano.Every/src/PpsAdjust.cpp:141-163 | a finished second joins the latest ones, the oldest is forgotten |
| `PpsSpanRing.SpanRing.OnPpsPrimed` | Nano.Every/src/PpsAdjust.cpp:133-139 | starts the second in progress |
| `PpsSpanRing.SpanRing.Reset` | Nano.Every/src/PpsAdjust.cpp:119-131 | forgets all seconds |
| `PpsSpanRing.SpanRing.FindSpanBySeq` | Nano.Every/src/PpsAdjust.cpp:46-56 | the newest remembered second of a number |
| `PpsSpanRing.SpanRing.FindSpanByTick` | Nano.Every/src/PpsAdjust.cpp:62-72 | the newest remembered second an edge falls in |
| `PpsSpanRing.SpanRing.TagTick` | Nano.Every/src/PpsAdjust.cpp:58-83 | remembered seconds first, then the open window of the second in progress |
| `PpsSpanRing.SpanRing.IntervalToNominalTicks` | Nano.Every/src/PpsAdjust.cpp:188-258 | the conversion loop returns the specified result, or the raw ticks with the fallback bits, and the crossing bits |
| `CaptureLines.EndLineBalances` | tools/nano_capture.py:103-155 | every line is counted exactly once: accepted by tag, malformed, before ready, or empty |
| `CaptureLines.AcceptedBalances` | tools/nano_capture.py:129-198 | an accepted line adds to exactly one count, and sample counts are the rows written |
| `CaptureLines.ReadinessGuardsSamples` | tools/nano_capture.py:103-198 | malformed or oversize metadata withdraws readiness; sample rows are written only while ready and with every field checked |
| `CaptureLines.ReadinessIsEarned` | tools/nano_capture.py:157-184 | only an accepted configuration line configures, only an accepted schema line adds its schema |
| `CaptureLines.ContractIsFixed` | tools/nano_capture.py:168-172 | once accepted the configuration contract never changes within a recording |
| `CaptureContract.TokensParse` | tools/nano_capture.py:157-163 | reading the tokens of any configuration with distinct keys gives it back |
| `CaptureContract.AdvertisedIsTaken` | tools/nano_capture.py:157-175 | what the firmware advertises passes every check of the capture tool, as the first contract or the same again |
| `CaptureContract.CfgLineConfigures` | Nano.Every/src/StatusTelemetry.cpp:320-345 | the bytes of the CFG line, fed to the capture tool, configure the recording and count as one line |
| `CaptureContract.SchemaLineAdds` | Nano.Every/src/SerialParser.cpp:545-577 | the bytes of a schema line add exactly its schema |
| `CaptureContract.MetadataMakesReady` | Nano.Every/src/PendulumProtocol.h:44-61 | the three metadata lines make any recording ready for samples, if it held no other contract |
| `NanoCapture.RunAppend` | tools/nano_capture.py:98-127 | the framer is a machine over single bytes |
| `NanoCapture.HeldBytes` | tools/nano_capture.py:102-126 | bytes held back count as if they came with the next ones, and do not matter while a line is skipped |
| `NanoCapture.ChunkingIsIrrelevant` | tools/nano_capture.py:98-127 | any chunking of a stream leaves the same rows, readiness, counters and error line |
| `NanoCapture.AlwaysBalanced` | tools/nano_capture.py:98-155 | in every reachable state without an error: lines = tag counts + malformed + before ready + empty |
| `NanoCapture.RowsOnlyGrow` | tools/nano_capture.py:98-198 | rows are only appended |
| `NanoCapture.ClosingByBoundary` | tools/nano_capture.py:91-127 | without an error closing does not depend on the chunks; after one only by whether a chunk ended with the failing line |
| `NanoCapture.ClosingAgrees` | tools/nano_capture.py:91-127 | two chunkings of one stream close alike if and only if no line failed, or the failing line ends a chunk in both or in neither |
| `NanoCapture.ChunkingShowsAtClose` | tools/nano_capture.py:91-127 | any failing line with one byte after it, cut in two ways, closes differently |
| `NanoCapture.ClosedIsBalanced` | tools/nano_capture.py:91-155 | a recording closed without an error accounts for every line |
| `NanoCapture.Capture.Feed` | tools/nano_capture.py:98-127 | a chunk, however cut, has the effect of its bytes one by one, and is kept whole in the raw log |
| `NanoCapture.Capture.TakeFirst` | tools/nano_capture.py:103-118 | one turn of the loop takes one complete line |
| `NanoCapture.Capture.Overflow` | tools/nano_capture.py:119-126 | an overlong unfinished line is counted once and skipped to its end |
| `NanoCapture.Capture.Line` | tools/nano_capture.py:109-155 | one line, its verdict and what a malformed one withdraws |
| `NanoCapture.Capture.Cfg` | tools/nano_capture.py:157-175 | configuration lines: tokens, required keys, frequency, contract |
| `NanoCapture.Capture.Tokens` | tools/nano_capture.py:158-163 | distinct, complete key=value pairs in order |
| `NanoCapture.Capture.Schema` | tools/nano_capture.py:177-184 | schema lines against the declared fields |
| `NanoCapture.Capture.Sample` | tools/nano_capture.py:186-198 | sample lines: field count, digits, length and range |
| `NanoCapture.Capture.Status` | tools/nano_capture.py:144-150 | status lines with a known code |
| `NanoCapture.Capture.Close` | tools/nano_capture.py:91-96 | a held unfinished line counts as malformed |
| `NanoCapture.Capture.Record` | tools/nano_capture.py:81-127 | chunks are fed until one fails, and then the recording is closed |
| `Decimal.ValueOfText` | Nano.Every/src/SerialParser.cpp:63-80 | reading a printed number back gives the number |
| `Decimal.TextLength32` | Nano.Every/src/SerialParser.cpp:63-80 | every 32-bit number prints in at most ten digits |
| `WireRows.U32ToDec` | Nano.Every/src/SerialParser.cpp:63-80 | the digit loop and the reversal print exactly the decimal text, terminated |
| `WireRows.LineWriter.AppendCStr` | Nano.Every/src/SerialParser.cpp:49-57 | appends the whole string if and only if it fits with its terminator |
| `WireRows.LineWriter.AppendChar` | Nano.Every/src/SerialParser.cpp:42-47 | appends one character if and only if it fits |
| `WireRows.LineWriter.AppendU32` | Nano.Every/src/SerialParser.cpp:82-86 | appends exactly the decimal text, if and only if it fits |
| `WireRows.FormatSwing` | Nano.Every/src/SerialParser.cpp:580-602 | a swing row always fits the line buffer and is the tag and the nine values |
| `WireRows.FormatPps` | Nano.Every/src/SerialParser.cpp:604-625 | a PPS row always fits and is the tag and the eight values |
| `WireRows.CommasOfFields` | tools/nano_capture.py:129-136 | splitting a printed row at commas gives back tag and field texts |
| `WireRows.TextsPass` | tools/nano_capture.py:186-193 | printed fields within their limits pass every host check |
| `WireRows.RowRoundTrips` | tools/nano_capture.py:98-198 | the bytes of a printed row, fed to a ready capture, add exactly that row |
| `WireRows.SwingColumns` | Nano.Every/src/PendulumProtocol.h:58-59 | each value of a swing row is printed in the column that the schema names after it |
| `WireRows.PpsColumns` | Nano.Every/src/PendulumProtocol.h:60-61 | and each value of a PPS row |
| `WireRows.SwingRowsAreSamples` | tools/nano_capture.py:186-193 | a printed row of numbers passes the host checks if and only if it is that of some swing sample |
| `WireRows.PpsRowsAreSamples` | tools/nano_capture.py:186-193 | and of some PPS sample, with its 16-bit fields and four status codes |
| `WireRows.SwingRoundTrip` | Nano.Every/src/SerialParser.cpp:580-602 | every swing sample arrives with every field exact, under its own name |
| `WireRows.PpsRoundTrip` | Nano.Every/src/SerialParser.cpp:604-625 | every PPS sample arrives with every field exact, under its own name |
| `SavedState.PackRoundTrip` | Raspberry.Pi/pendulum_pi/analysis.py:34-56 | unpacking a packed value returns it if and only if no dict in it has exactly the keys {deque, maxlen} or {tuple} |
| `ReplayWorker.OffsetIsResume` | Raspberry.Pi/pendulum_pi/analysis.py:230-249 | a saved offset is where the consumed records of its segment end |
| `ReplayWorker.GrowthAppends` | Raspberry.Pi/pendulum_pi/analysis.py:231-249 | growth of the last segment only appends to the log of committed records |
| `ReplayWorker.CursorSurvivesGrowth` | Raspberry.Pi/pendulum_pi/analysis.py:230-249 | so what was consumed stays its beginning and every offset stays right |
| `ReplayWorker.EarlierGrowthReorders` | Raspberry.Pi/pendulum_pi/analysis.py:231-249 | when an earlier segment gains records the old log stays the beginning of the new one if and only if no later segment has a record |
| `ReplayWorker.EarlierGrowthExample` | Raspberry.Pi/pendulum_pi/analysis.py:231-249 | such a growth that reorders |
| `ReplayWorker.Worker.Restart` | Raspberry.Pi/pendulum_pi/analysis.py:76-80 | a new process continues from the saved model state |
| `ReplayWorker.Worker.Consume` | Raspberry.Pi/pendulum_pi/analysis.py:145-205 | inside a pass a record changes model and cursor together if and only if neither model nor history raises; otherwise the model is torn |
| `ReplayWorker.Worker.Drain` | Raspberry.Pi/pendulum_pi/analysis.py:239-249 | a segment is read record by record from its offset to the committed limit or the batch size, and fails exactly at a record that raises or a partial one |
| `ReplayWorker.Worker.Visit` | Raspberry.Pi/pendulum_pi/analysis.py:231-251 | one segment of a pass continues the log where it was left |
| `ReplayWorker.Worker.Step` | Raspberry.Pi/pendulum_pi/analysis.py:222-261 | a pass takes effect as a whole or not at all, and does if and only if the lock is free, the save works, no record up to the batch size raises and the segments read out end in whole records; it then takes the next max records of the log, or all that are left, and the saved state is the fold of exactly those done, each once, in order |
| `ReplayWorker.Worker.Run` | Raspberry.Pi/pendulum_pi/analysis.py:222-261 | over any run of growth of the last segment, passes, failures and new processes the saved state is the fold of the first records of the log, each once, in order, and how many is the sum over the passes that succeed |
| `ReplayWorker.PassesCatchUp` | Raspberry.Pi/pendulum_pi/analysis.py:222-261 | enough passes that succeed reach the end of the log, whatever their sizes |

## Left out

- Real hardware set-up, event routing, clock hand-off, LED, memory telemetry, and the reset-cause and breadcrumb records: foreign effects.
- Time inside interrupt handlers other than the register reads: each read may be preceded by any wait, as long as at most one overflow is pending, which is what the firmware's own timing argument provides.
- Serial timing, partial writes and the newline fence: a row's hand-over to the port succeeds or fails as a whole, and no delivery claim is made beyond it.
- `TunableConfig.crc16`, command-line splitting, parameter name lookup, status lines, help text and the `get` command: no state depends on them.
- EepromJournal.EepromConfig.SaveConfig: after a power cut the model runs on with all further writes lost, instead of stopping; its result then says whether the record had been published.
- PpsValidator.Validator.ObserveSample: the diagnostic counters for near-double intervals and seed failures are not modelled, as nothing reads them but telemetry.
- FreqDiscipliner.Discipliner.ResidualStep: of the three residual rings only the one that drives the machine is modelled; the slow and applied ones feed telemetry only.
- FreqDiscipliner.Discipliner.Observe: the per-call errors and their ppm forms, the transition streak, the ppm form of the spread, the lock and unlock masks are not modelled, as only telemetry reads them; 32-bit signed differences are two's complement.
- PpsRuntime.Pipeline.ProcessPps: metadata replay, telemetry windows and the canonical PPS rows of a pass are not modelled.
- DisciplinedTime.Exporter.Follow: compiled only in builds with PPS tuning telemetry; the other builds have no exporter.
- PpsSpanRing.SpanRing.IntervalToNominalTicks: the `valid` byte of a span is not modelled, as every span inside the fill count has it set; diagnostic bits are a set. `ppsAdjustLookupSeq`, an unused accessor, is not modelled. The ring size is any power of two up to 32, since `PPS_SCALE_RING_SIZE` is not part of this model.
- PpsAdjust.FinalizeKeepsContiguous: priming again without a reset keeps older seconds whose numbers restart from 0; contiguity is claimed from a priming of the empty record.
- CaptureTimeline.Timebase.PlatformMillis: `platformDelayMs` and the hand-over of the Arduino timer are not modelled.
- WireRows.RowRoundTrips: UTF-8 decoding and strict CSV reading are a parameter, required to split printable ASCII without quotes at its commas.
- NanoCapture.Capture.Feed: output files are sequences of rows; flushing, exclusive creation of files and port selection are not modelled.
- SavedState.PackRoundTrip: the JSON text between the two functions is taken to preserve packed trees with string keys; floating-point leaves are not modelled.
- ReplayWorker.Worker.Step: estimator, history and checkpoint are one deterministic step that may raise; segment discovery, the publishing of results and a commit whose outcome is unknown are not modelled.
- ReplayWorker.Worker.Consume: the variant that commits every record by itself is not modelled, since passes never use it.
- Dual-PPS profiling and latency diagnostics builds.
- Plots, reports, regressions, spectra, Allan deviation and environmental models: library arithmetic.
- `Nano.Every/tools/nano_serial_ingest.py` and the web, display, sensor and storage services of the Pi.
