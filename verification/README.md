# MIDI framework: a Dafny model of its transport, codec, scheduler and accounts

The framework moves MIDI events between processes through a ring in shared memory, schedules them
for drivers, translates between MIDI 1.0 byte streams and Universal MIDI Packets (UMP), and keeps
accounts of which client holds which device and port. This project states what each of these parts
owes to the others and proves it for every input, every run and every interleaving.
`dafny verify dfyconfig.toml` checks all of it.

## How the files belong together

- `RingLayout`, `RingWrites`: the ring's memory as words. `Chain` decodes what lies between the two
  positions, through wrap markers and tails too short for a header, into a list of headers (`Slot`)
  and so into events. Each header slot remembers the sequence number it was published with: a header
  whose stale word was 0xFFFFFFFD or 0xFFFFFFFE is published with number 0, which readers take for
  "never written". Contracts say exactly what happens then instead of excluding it.
- `SharedRing`: the class `MidiSharedRing` over a word array, every method against the queue that
  `Chain` decodes. `RingConcurrent`: the same ring with writer and reader as separate steps, one
  shared access each, working on position snapshots that may be out of date. `RingProgress`: in that
  system each side finishes within a fixed number of its own steps, whatever the other does. `RingTorn`:
  a header that is being written is marked, and what a reader finds changed it does not take.
- `RingStuck`: when the ring stops. An empty ring that refuses an event for ever, and a queue behind
  a header published with number 0: the exact conditions, why they last under every later use, and
  a run from a fresh ring for each.
- `Futex`: the three-state futex word, any number of waiting threads and of wakers, as a step system.
- `UmpWords`, `UmpParser`, `UmpProcessorModel`, `UmpReverse`: packets, the byte parser as a function with
  its mode made explicit, the parser object with its buffers updated in place, and the way back.
  `RunningStatus`: streams in which repeated status bytes are left out.
  `BleLink`, `BleRoundTrip`: Bluetooth framing (MIDI over Bluetooth Low Energy, packet encoding) and
  the whole way from bytes to bytes. `UmpConvert`: conversion between the MIDI 1.0 and the MIDI 2.0
  protocol (M2-104-UM v1.1, sections 7.3 and 7.4). `InputPort`: a client's input port, which drains a real
  `MidiSharedRing`, cuts its events into packets and converts them.
- `SysExSend`: cutting, packing and sending system exclusive data through a real `MidiSharedRing`
  whose consumer drains it at will between tries. A ghost list of tries records what each found and did,
  and status and outcome are read off it. `SysExLink`: the prepared packets on their way to a
  Bluetooth device, each read back and framed on its own.
- `Schedule`, `Scheduler`: the output scheduler. A ghost log records whose events went to the driver
  or the send cache; each client's account (`Settled`) is part of the invariant, so it holds over
  every run of passes, joins, departures and cache flushes. `SchedulerRuns` holds a run that stalls.
  `SchedulerRing` joins scheduler and `MidiSharedRing`: the scheduler's ring is what a reader sees of
  the shared one, headers published with number 0 and all behind them left out.
- `Ledger`, `BleRequests`, `Controller`: the service controller. Its maps are fields of the class;
  the invariant `Valid` ties them together and every operation keeps it. `Served` says that every
  port a client is connected to is open at the driver; the set `failed` holds the ports a driver
  refused to close, and no other port is open without a connection. `ControllerRuns` holds the runs
  that break a promise, and what every run keeps.

Bit fields are written with `*`, `+`, `/` and `%`; 32-bit wrap-around is always explicit.

## Where the code and its comments differ, or a promise fails

- `GetUmpWordCount` never answers 0, although services/common/include/ump_converter.h:66 says it may.
- Framing is undone by the receiver exactly when the first byte is a status byte
  (`FramingIsExact`); the undefined status bytes F4 and F5 give nothing back (`ShortMessageBytes`).
- Scaling from 32 bits is to a nearest value exactly below the value at which the rounding addition
  wraps (`U32ToU7IsNearest`, `U32ToU14IsNearest`), and monotone except across it (`ScalingIsMonotone`).
- The sender's packing and the reverse parser use different byte orders inside a word, so the reverse
  parser gives system exclusive data back unchanged if and only if each of its six-byte chunks reads the
  same in both orders (`SentDataReadBack`). Every packet is framed on its own, so from the second on a
  timestamp stands in front of a data byte and is misread: seven-bit data reaches a Bluetooth device if
  and only if it is at most six bytes long and reads the same in both orders (`SevenBitDataArrives`,
  `SysExToDevice`); a single byte that is not 0 arrives as 0 (`OneByteIsLost`).
- A ring that is empty takes an event at once at every position exactly if its record is at most half
  the ring (`EmptyRingTakes`). A refused try leaves a wrap marker, so a consumer that goes on polling
  lets it in after all, at every position exactly if the record leaves room for one more header
  (`PolledRingTakes`, `TryLookTry`). Otherwise the ring can stay empty and refuse the event for ever
  (`StaysStuck`; a run in a ring of 64 bytes is `SameEventNeverAgain`).
- A header stored over the stale word 0xFFFFFFFD or 0xFFFFFFFE is published as "never written"
  (`LiveAfterTry`). Its event is accepted and no reader ever sees it or anything behind it
  (`StaysDead`; a run in a ring of 80 bytes is `ThirdEventUnseen`).
- No wake-up is lost if and only if at most one thread waits on a futex word (`LostExactly`; the run that
  loses one, for every larger number, is `TwoWaitersCanLoseAWakeup`).
- A pass of the scheduler can leave events in a client's ring and none in its heap, so that nothing of
  this client arms the timer: with no event arriving meanwhile, exactly if more timed events waited
  than the heap takes, and what was pending together with the timed events that fill the heap was all
  due (`StallsExactly`; `OneIsLeft` is a run after which the timer is off). In every other case the
  timer is armed (`LeftBehindIsTimed`).
- A Bluetooth completion does not look at the limit of 16 devices again. `HandleBleOpenComplete`
  states exactly when the limit survives; `SeventeenDevices` is a run after which it does not.
- When nobody waits for a completed Bluetooth connection any more, the controller has the device closed
  even if clients use it under the same id. The driver reports the device as removed before that call
  returns, so every client of the device loses it with the ports it uses there, having closed nothing.
  `HandleBleOpenComplete` states exactly who loses it; `ClosedInUse` is a run. Its input is a connection
  whose success is delivered twice.

## Model

| member | source | states |
|---|---|---|
| `RingLayout.PublishedSeqIsDeadExactly` | services/common/src/midi_shared_ring.cpp:784-796 | the writer always publishes an even number, and 0 exactly over the two stale words 0xFFFFFFFD and 0xFFFFFFFE |
| `RingLayout.PublishedSeqChanges` | services/common/src/midi_shared_ring.cpp:784-796 | a header that is written again never keeps its number, on which the test before a commit rests |
| `RingWrites.PutRecordReads` | services/common/src/midi_shared_ring.cpp:803-835 | a stored record reads back as exactly the event, with the next even sequence number |
| `RingWrites.RecordLayout` | services/common/src/midi_shared_ring.cpp:803-835 | word by word where a record puts time stamp, length, flags, number and payload, and which word it leaves alone |
| `RingWrites.RewritingIsNoticed` | services/common/src/midi_shared_ring.cpp:635-644 | storing a record or a marker over a header changes its number, so a commit of what was peeked there is refused |
| `RingWrites.PutWrapReads` | services/common/src/midi_shared_ring.cpp:780-797 | a stored wrap marker reads back as one, with length 0 |
| `RingWrites.ChainRecord` | services/common/src/midi_shared_ring.cpp:751-771 | a record stored at the write position extends the decoded queue by that record, also when it ends exactly at the end of the ring |
| `RingWrites.ChainWrap` | services/common/src/midi_shared_ring.cpp:773-801 | a wrap marker and a restart at offset 0 leave the decoded events as they are |
| `RingWrites.ChainShortTail` | services/common/src/midi_shared_ring.cpp:773-801 | a restart over a tail too short for a header changes nothing in the queue |
| `RingWrites.ChainHead` | services/common/src/midi_shared_ring.cpp:837-867 | where the reader finds the first header, and that a wrap marker never stands at offset 0 |
| `RingWrites.ChainPop` | services/common/src/midi_shared_ring.cpp:635-655 | storing the end of the head record as read position leaves exactly the rest of the queue |
| `SharedRing.EventRecordSize` | services/common/src/midi_shared_ring.cpp:61-76 | the record size is the header and payload rounded up to 8 bytes, absent exactly when it exceeds 32 bits |
| `SharedRing.LiveReadsAll` | services/common/src/midi_shared_ring.cpp:545-583 | a reader sees a prefix of the queue, and all of it if no header carries number 0 |
| `SharedRing.LiveAfterWrite` | services/common/src/midi_shared_ring.cpp:803-835 | after writes every header is visible exactly if it was before and no new header fell on a poisonous stale word |
| `SharedRing.LiveAfterTry` | services/common/src/midi_shared_ring.cpp:751-801 | from memory and positions before one write: liveness ends exactly if the word under its wrap marker or its record is one of the two poisonous ones |
| `SharedRing.EmptyRingTakes` | services/common/src/midi_shared_ring.cpp:751-801 | an empty ring takes a record at once at every position if and only if it is at most half the capacity |
| `RingStuck.PolledRingTakes` | services/common/src/midi_shared_ring.cpp:751-801 | with a polling consumer an empty ring takes a record in the end at every position if and only if record and one header fit the ring |
| `RingStuck.TryLookTry` | services/common/src/midi_shared_ring.cpp:592-633 | try, look, try again on an empty ring: taken if and only if it fits at once or a marker fits behind the position and is published with a number that is not 0; otherwise the ring is stuck |
| `RingStuck.StaysStuck` | services/common/src/midi_shared_ring.cpp:592-801 | a stuck ring accepts and yields nothing and does not move under any sequence of writes of events that large, reads and drains |
| `RingStuck.StaysDead` | services/common/src/midi_shared_ring.cpp:545-583 | behind a header published with 0 nothing is ever read, under any sequence of writes, reads and drains |
| `RingStuck.SameEventNeverAgain` | services/common/src/midi_shared_ring.cpp:751-801 | a run in 64 bytes: an event passes once, and is refused for ever after by the empty ring |
| `RingStuck.ThirdEventUnseen` | services/common/src/midi_shared_ring.cpp:784-796 | a run in 80 bytes: an accepted event that no later use of the ring delivers |
| `SharedRing.MidiSharedRing.constructor` | services/common/src/midi_shared_ring.cpp:284-312 | a fresh ring is empty |
| `SharedRing.MidiSharedRing.StoreHeader` | services/common/src/midi_shared_ring.cpp:810-834 | the header words and sequence number stored; all other words keep their value |
| `SharedRing.MidiSharedRing.WriteEvent` | services/common/src/midi_shared_ring.cpp:803-835 | memory becomes exactly the old memory with that record in it, unless the index is out of range |
| `SharedRing.MidiSharedRing.UpdateWriteIndexIfNeed` | services/common/src/midi_shared_ring.cpp:773-801 | the queue's events stay; exactly when a marker is stored; the restart never reaches the reader of a non-empty ring |
| `SharedRing.MidiSharedRing.TryWriteOneEvent` | services/common/src/midi_shared_ring.cpp:751-771 | succeeds exactly if the event fits at the present positions; which headers it stores where, and where it leaves the write position, also when it fails |
| `SharedRing.MidiSharedRing.ValidateOneEvent` | services/common/src/midi_shared_ring.cpp:741-749 | an event is valid exactly if it has data and its record is smaller than the ring |
| `SharedRing.MidiSharedRing.TryWriteEvents` | services/common/src/midi_shared_ring.cpp:490-540 | the queue grows by exactly the first `eventsWritten` events, as many as fit one behind the other from the present positions on (`CountFit`); the next one is invalid or does not fit; a pending peek stays good |
| `SharedRing.MidiSharedRing.TryWriteEvent` | services/common/src/midi_shared_ring.cpp:484-488 | one event: the status, the headers stored and the new write position for every size and position |
| `SharedRing.MidiSharedRing.ReadHeaderSafely` | services/common/src/midi_shared_ring.cpp:545-583 | a header is read exactly if its number is even and not 0 |
| `SharedRing.MidiSharedRing.UpdateReadIndexIfNeed` | services/common/src/midi_shared_ring.cpp:837-853 | which position the next header is looked for at, and when the ring is found empty or broken |
| `SharedRing.MidiSharedRing.BuildPeekedEvent` | services/common/src/midi_shared_ring.cpp:869-893 | payload and end offsets of a record that lies inside the ring |
| `SharedRing.MidiSharedRing.PeekNext` | services/common/src/midi_shared_ring.cpp:585-633 | OK exactly if a published event can be read; it describes the head of the queue and takes nothing; three tries suffice |
| `SharedRing.MidiSharedRing.HeadIsTaken` | services/common/src/midi_shared_ring.cpp:895-914 | the words a peek points at are the head event of the queue |
| `SharedRing.MidiSharedRing.CommitRead` | services/common/src/midi_shared_ring.cpp:635-655 | committing the last peek removes exactly the head; a changed header is refused |
| `SharedRing.MidiSharedRing.DrainToBatch` | services/common/src/midi_shared_ring.cpp:657-686 | terminates; takes the readable events in order, all of them without a cap, the first `maxEvents` with one |
| `SharedRing.MidiSharedRing.Flush` | services/common/src/midi_shared_ring.cpp:688-713 | the ring is empty and its memory zero, or untouched when the flush flag is not to be had in time |
| `RingConcurrent.DeliveryIsFifo` | services/common/src/midi_shared_ring.cpp:501-526 | in every interleaving the events written are the events delivered followed by those memory still holds, each once, in order; that these are delivered in turn is `RingProgress.ReaderProgress` |
| `RingConcurrent.WriterSparesUnread` | services/common/src/midi_shared_ring.cpp:751-835 | no writer step changes a word of an unread record, nor lets the write position reach the reader of a non-empty ring |
| `RingConcurrent.ReaderTakesTheOldest` | services/common/src/midi_shared_ring.cpp:592-654 | a reader delivers only the oldest unread event, and only a published one |
| `RingConcurrent.PublishKeeps` | services/common/src/midi_shared_ring.cpp:765-770 | storing the write position adds exactly the finished record to what readers can find |
| `RingConcurrent.RunKeeps` | services/common/src/midi_shared_ring.cpp:490-655 | the invariant of both sides holds after any sequence of steps of either |
| `RingProgress.ReaderProgress` | services/common/src/midi_shared_ring.cpp:592-654 | from every reachable state whose oldest event is readable: 18 reader steps and one for each payload word deliver it, whatever the writer does in between, wrap markers included |
| `RingProgress.LiveIsReadable` | services/common/src/midi_shared_ring.cpp:545-583 | with live headers the oldest unread event is readable |
| `RingProgress.WriterProgress` | services/common/src/midi_shared_ring.cpp:751-771 | the event an idle writer tries is written if and only if it fits at the positions found, by the same test as in `TryWriteOneEvent`, after 14 writer steps and one for each payload word, whatever the reader does in between |
| `RingTorn.HalfWrittenIsOdd` | services/common/src/midi_shared_ring.cpp:784-835 | in every reachable state a header that is being written has an odd number until its last word is stored |
| `RingTorn.TornHeaderIsRefused` | services/common/src/midi_shared_ring.cpp:545-583 | a header whose number is odd, 0, or changed while it was loaded makes the reader start again |
| `RingTorn.TornPayloadIsRefused` | services/common/src/midi_shared_ring.cpp:635-644 | so does one whose number changed while the payload was copied |
| `RingTorn.CommitNeedsTheNumber` | services/common/src/midi_shared_ring.cpp:635-655 | a commit is reached only with the number the header was accepted with |
| `Futex.NoLostWakeup` | services/common/src/futex_tool.cpp:122-187 | for a thread that waits alone: when all wakers have returned it does not sleep on a true predicate |
| `Futex.PreExitStays` | services/common/src/futex_tool.cpp:122-187 | once PRE_EXIT is stored nothing changes the word |
| `Futex.PreExitReleases` | services/common/src/futex_tool.cpp:136-162 | after PRE_EXIT a waiter that is awake returns within four of its steps |
| `Futex.ReturnedBecause` | services/common/src/futex_tool.cpp:136-162 | success is answered only on a true predicate, a timeout only when the time is over, failure only on PRE_EXIT or when 50 tries are used up |
| `Futex.WaitIsBounded` | services/common/src/futex_tool.cpp:136-162 | however often it is woken for nothing, a call takes at most 201 steps of its own, and gives up after exactly as many |
| `Futex.StepKeeps` | services/common/src/futex_tool.cpp:104-187 | every step of a lone waiter, the wakers and the kernel keeps a waker or a kernel wake under way while it is needed |
| `Futex.TwoWaitersCanLoseAWakeup` | services/common/src/futex_tool.cpp:122-163 | for every number of threads from two on, a run of two of them in FutexWait after which both sleep, no waker is left, and the predicate of one is true |
| `Futex.LostExactly` | services/common/src/futex_tool.cpp:122-187 | no reachable state without a waker has a sleeper whose predicate is true, if and only if at most one thread waits |
| `UmpWords.Word0Fields` | services/common/src/ump_converter.cpp:122-128 | the fields of an assembled first word read back as they went in |
| `UmpWords.GetUmpWordCount` | services/common/src/ump_converter.cpp:425-436 | the size for every message type, and for flex data by format; never 0 |
| `UmpWords.SplitIsExact` | services/common/src/ump_converter.cpp:438-465 | splitting loses no word: complete packets, then an incomplete rest |
| `UmpWords.SplitInvertsJoin` | services/common/src/ump_converter.cpp:438-465 | splitting the joined words of well-formed packets gives back the packets |
| `UmpWords.SplitUmpPackets` | services/common/src/ump_converter.cpp:438-465 | the loop returns exactly the complete packets at the front of the stream, each as long as its type says |
| `UmpParser.EmittedPacketsAreFramed` | services/common/src/ump_processor.cpp:214-285 | every packet the parser emits has the length its first word announces |
| `UmpParser.EmittedPacketsCarryGroup` | services/common/src/ump_processor.cpp:87-90 | every packet the parser emits carries the group that was set |
| `UmpParser.RunAppend` | services/common/src/ump_processor.cpp:174-192 | parsing in pieces is parsing in one go |
| `UmpParser.NoTimestamps` | services/common/src/ump_processor.cpp:174-192 | bytes of which no two neighbours are status bytes are read unchanged |
| `UmpParser.RealTimeIsTransparent` | services/common/src/ump_processor.cpp:92-192 | leaving out real-time bytes changes no other packet and not the mode; the real-time packets are exactly those bytes, in order |
| `UmpParser.SysExIsSegmented` | services/common/src/ump_processor.cpp:106-125 | for every input CONTINUE and END follow START or CONTINUE among system exclusive packets, and no count exceeds six |
| `UmpParser.SysExKeepsData` | services/common/src/ump_processor.cpp:229-285 | the payloads of the packets between F0 and F7 are exactly the enclosed data bytes |
| `UmpParser.SysExRoundTrip` | services/common/src/ump_processor.cpp:251-285 | status, count and data of an assembled system exclusive packet read back |
| `RunningStatus.DataAlone` | services/common/src/ump_processor.cpp:145-163 | under a running status the data bytes alone give the packet and the mode they give behind the status byte, whatever ran before |
| `RunningStatus.RepeatedStatusesCanBeLeftOut` | services/common/src/ump_processor.cpp:145-163 | over a whole stream: whichever repeated channel statuses are left out, also across real-time bytes, packets and mode stay the same |
| `RunningStatus.SystemMessageEndsRunningStatus` | services/common/src/ump_processor.cpp:106-143 | behind F0 to F7 nothing runs any more: data bytes after such a message emit nothing |
| `RunningStatus.OrphanData` | services/common/src/ump_processor.cpp:145-163 | data without a running status emits nothing and changes nothing |
| `RunningStatus.StatusStartsAfresh` | services/common/src/ump_processor.cpp:106-143 | a status byte drops an unfinished message without a packet for it; F7 outside an exclusive message is dropped |
| `UmpProcessorModel.UmpProcessor.Reset` | services/common/src/ump_processor.cpp:291-310 | the parser is idle in both directions |
| `UmpProcessorModel.UmpProcessor.HandleRealTime` | services/common/src/ump_processor.cpp:92-104 | exactly F8 to FF are passed on at once |
| `UmpProcessorModel.UmpProcessor.HandleStatusByte` | services/common/src/ump_processor.cpp:106-143 | the fields and the emitted packet are those of the parser function's step |
| `UmpProcessorModel.UmpProcessor.HandleChannelData` | services/common/src/ump_processor.cpp:145-163 | data bytes complete a message or start one under the running status, as in the step function, for which `RunningStatus` says what that means |
| `UmpProcessorModel.UmpProcessor.ProcessSysExData` | services/common/src/ump_processor.cpp:229-241 | six buffered bytes leave as START or CONTINUE, as in the step function |
| `UmpProcessorModel.UmpProcessor.FinalizeSysEx` | services/common/src/ump_processor.cpp:243-249 | what is buffered leaves as COMPLETE or END |
| `UmpProcessorModel.UmpProcessor.DispatchSysExPacket` | services/common/src/ump_processor.cpp:251-285 | the packet carries exactly the first `count` buffered bytes |
| `UmpProcessorModel.UmpProcessor.DispatchChannelMessage` | services/common/src/ump_processor.cpp:214-226 | the packet carries status and data bytes of the message collected |
| `UmpProcessorModel.UmpProcessor.ProcessBytes` | services/common/src/ump_processor.cpp:174-192 | the object refines the parser function on the stream without its timestamps, and so meets every result about that function |
| `UmpProcessorModel.UmpProcessor.ProcessUmpType3` | services/common/src/ump_processor.cpp:454-527 | bytes and open-message flag follow the reverse function for every status and count |
| `UmpProcessorModel.UmpProcessor.ProcessUmp` | services/common/src/ump_processor.cpp:312-356 | the loop, also over unknown types and an incomplete last packet, refines the reverse function |
| `UmpProcessorModel.UmpProcessor.ProcessUmpPacket` | services/common/src/ump_processor.cpp:358-372 | one packet object gives what its words give |
| `UmpReverse.StreamIsPackets` | services/common/src/ump_processor.cpp:312-372 | reading a stream is reading its complete packets one by one, then the incomplete rest |
| `UmpReverse.JoinedPackets` | services/common/src/ump_processor.cpp:312-372 | reading the joined words of well-formed packets is reading the packets |
| `UmpReverse.PassedOver` | services/common/src/ump_processor.cpp:339-352 | a packet of any type without a MIDI 1.0 form, whatever its words hold, gives nothing and leaves what follows as it is |
| `UmpReverse.Midi2IsPassedOver` | services/common/src/ump_processor.cpp:339-352 | a MIDI 2.0 channel message followed by any words gives what those words give |
| `UmpReverse.CutOff` | services/common/src/ump_processor.cpp:328-352 | a packet cut off at the end: a data packet is read with 0 as its second word, any other gives nothing |
| `UmpReverse.DataPacketBounds` | services/common/src/ump_processor.cpp:454-527 | at most six bytes however many are announced; a CONTINUE gives nothing outside an open message; which statuses leave one open |
| `BleLink.EncodeEvent` | services/common/src/ble_midi_encoder.cpp:20-63 | one header, one timestamp in front of the first byte and of each later status byte; nothing for no data |
| `BleLink.PacketCarriesTime` | services/common/src/ble_midi_encoder.cpp:20-63 | header and first timestamp of a packet give the 13 low bits of the time |
| `BleLink.EncodeEvents` | services/common/src/ble_midi_encoder.cpp:65-129 | the header of the first non-empty event, then the frames of the non-empty events in order |
| `BleLink.BatchHeader` | services/common/src/ble_midi_encoder.cpp:65-129 | the header byte of a batch is that of its first event with data |
| `BleLink.FramingIsExact` | services/common/src/ble_midi_encoder.cpp:20-63 | the receiver's timestamp rule gives back the data if and only if it starts with a status byte |
| `BleLink.BatchFramingIsExact` | services/common/src/ble_midi_encoder.cpp:65-129 | the same for several events: if and only if each non-empty one does |
| `BleLink.RealTimeIsTransparentInFrames` | services/common/src/ump_processor.cpp:174-192 | in a stream of data bytes and status bytes with arbitrary timestamps, real-time bytes with theirs can be left out without changing any other packet or the mode |
| `BleLink.BatchIsWire` | services/common/src/ble_midi_encoder.cpp:65-129 | what the encoder sends behind its header, each event with its own timestamp, is such a stream |
| `BleRoundTrip.ShortMessage` | services/common/src/ump_processor.cpp:106-163 | a complete message becomes one packet whatever status was running |
| `BleRoundTrip.ShortMessageBytes` | services/common/src/ump_processor.cpp:374-452 | its packet gives the message back, except for the undefined F4 and F5, which give nothing |
| `BleRoundTrip.ExclusiveTail` | services/common/src/ump_processor.cpp:229-285 | from any state of a system exclusive message the packets still to come give back start, buffered and remaining bytes and end |
| `BleRoundTrip.LinkIsLossless` | services/server/src/midi_device_ble.cpp:406-419 | complete messages survive framing, parsing and the way back byte for byte, for any timestamp and group |
| `BleRoundTrip.LinkIsLosslessWithRealTime` | services/common/src/ump_processor.cpp:92-192 | with real-time bytes mixed in at any place both the messages and the real-time bytes survive, each in order |
| `RunningStatus.LinkRestoresStatuses` | services/common/src/ump_processor.cpp:145-163 | messages sent under running status arrive over the link with all their status bytes |
| `BleRoundTrip.OnNotification` | services/server/src/midi_device_ble.cpp:373-415 | the words of exactly the packets the parser completes from the bytes behind the header; too short or too long packets are ignored |
| `BleRoundTrip.SendUmp` | services/server/src/midi_device_ble.cpp:695-711 | the words read back as bytes, framed with the event's time |
| `BleRoundTrip.AcrossTheLink` | services/server/src/midi_device_ble.cpp:373-415 | the parser objects at both ends, put together: complete messages arrive as they were sent |
| `UmpConvert.U32ToU7IsNearest` | services/common/src/ump_converter.cpp:143-146 | rounding is to a nearest 7-bit value, off by 2^24 at most, if and only if the value is below 0xFF000000 |
| `UmpConvert.U32ToU14IsNearest` | services/common/src/ump_converter.cpp:148-151 | the same for 14 bits, 2^17 and 2^32 - 2^17 |
| `UmpConvert.ScalingIsMonotone` | services/common/src/ump_converter.cpp:143-151 | for a pair of values the larger is not scaled to less than the smaller if and only if both lie on one side of the wrapping value or the smaller is below half a step |
| `UmpConvert.WidenThenNarrow` | services/common/src/ump_converter.cpp:133-151 | scaling up and down again is the identity |
| `UmpConvert.ConvertOne` | services/common/src/ump_converter.cpp:187-240 | which packets pass, are converted or are dropped, and that a dropped one appends nothing |
| `UmpConvert.ConvertedIsFramed` | services/common/src/ump_converter.cpp:187-420 | what is appended for a packet is a packet, in both directions; for other words exactly unless they are data words that are not two |
| `UmpConvert.ConvertedExactly` | services/common/src/ump_converter.cpp:187-240 | a packet is converted if and only if it is a system or data packet or a channel voice message of the protocol converted from |
| `UmpConvert.SystemAndDataPass` | services/common/src/ump_converter.cpp:203-222 | system and data words pass unchanged, in which numbers |
| `UmpConvert.OddSizesAreRefused` | services/common/src/ump_converter.cpp:187-240 | nothing else is converted that has another number of words than its type |
| `UmpConvert.UpMeans` | services/common/src/ump_converter.cpp:309-371 | for each of the seven messages the number, the value word and the header fields that go up, the pitch bend with its second byte the higher one |
| `UmpConvert.DownMeans` | services/common/src/ump_converter.cpp:372-421 | the same downwards: number kept, value scaled and rounded to 7 or 14 bits |
| `UmpConvert.UpAndDown` | services/common/src/ump_converter.cpp:245-420 | MIDI 1 to 2 to 1 gives a canonical word, and the same word if and only if it was canonical |
| `UmpConvert.DownAndUp` | services/common/src/ump_converter.cpp:245-420 | MIDI 2 to 1 to 2 keeps group, status and channel, bounds the error exactly, and is stable from then on |
| `InputPort.DrainRingAndDispatch` | frameworks/native/midi/src/midi_client.cpp:462-515 | over the shared ring itself: all readable events are taken, each cut into its complete packets, each of these converted or handed on as it is, in order and at the event's time |
| `InputPort.HandedOnIsFramed` | frameworks/native/midi/src/midi_client.cpp:477-511 | every event the client gets holds exactly one packet, and joined together they fall into the same packets again |
| `InputPort.NothingConverted` | frameworks/native/midi/src/midi_client.cpp:484-488 | without a conversion the client gets every word but those of an incomplete packet at the end |
| `InputPort.UpThenDown` | frameworks/native/midi/src/midi_client.cpp:489-508 | converted up and down again a packet is unchanged if and only if it is no channel voice message, or a canonical MIDI 1.0 one |
| `SysExSend.PackingIsReversible` | frameworks/native/midiutils/src/midi_utils.cpp:140-165 | a packed packet has its length, status and, unpacked in its own layout, its bytes |
| `SysExSend.ReverseParserSwaps` | frameworks/native/midiutils/src/midi_utils.cpp:156-163 | what the reverse parser reads from a packed packet, and that it is the packed bytes if and only if they read the same in both orders |
| `SysExSend.SentDataReadBack` | services/common/src/ump_processor.cpp:454-527 | what the reverse parser makes of all the packets of a client's data, for every length, and that it is the data between F0 and F7 if and only if every chunk reads the same in both orders |
| `SysExSend.PreparedCarries` | frameworks/native/midi/src/midi_client.cpp:556-575 | the prepared packets are one message of which each packet reads back as its chunk, swapped |
| `SysExLink.HandleUmpInput` | services/server/src/midi_device_ble.cpp:662-720 | the loop reads each event back with the state the ones before it left, frames it on its own, and skips what gives no bytes |
| `SysExLink.ArrivedExactly` | services/server/src/midi_device_ble.cpp:695-711 | over any events: a receiver gets exactly their bytes if each starts with a status byte, and otherwise more bytes than were sent |
| `SysExLink.SentDataArrives` | services/server/src/midi_device_ble.cpp:695-711 | a device gets the data between F0 and F7 if and only if every chunk reads the same in both orders and all chunks but the first start with a status byte, whatever the timestamps |
| `SysExLink.SevenBitDataArrives` | services/server/src/midi_device_ble.cpp:695-711 | for seven-bit data: if and only if it fits one packet and reads the same in both orders |
| `SysExLink.OneByteIsLost` | frameworks/native/midiutils/src/midi_utils.cpp:156-163 | the failing input: one byte arrives as 0 |
| `SysExLink.SysExToDevice` | services/server/src/midi_device_ble.cpp:662-720 | preparation and driver put together: the same conditions for the Bluetooth packets that leave |
| `SysExSend.PackSysEx7Ump64` | frameworks/native/midiutils/src/midi_utils.cpp:140-165 | the loops over bytes build exactly that packet; a group number is cut to four bits |
| `SysExSend.PreparationIsLossless` | frameworks/native/midi/src/midi_client.cpp:556-575 | the prepared packets unpack to the data, and their statuses are COMPLETE or START CONTINUE* END |
| `SysExSend.StatusesFormOneMessage` | frameworks/native/midiutils/include/midi_utils.h:60-72 | the status rule yields one message for every number of packets |
| `SysExSend.PrepareSysExPackets` | frameworks/native/midi/src/midi_client.cpp:556-575 | the loop prepares exactly these packets, with time stamp 0 |
| `SysExSend.SendSysExPackets` | frameworks/native/midi/src/midi_client.cpp:577-613 | the call seen from its tries, one for each turn used: each writes as many events as fit at the positions it finds (`CountFit`) behind what the consumer left; timeout only with all turns used, no failed wait, and the next event refused by the ring; system error only after a try that wrote nothing and whose wait failed, or on a broken ring; what was appended is a prefix of the events, each once and in order, and all of them exactly on success |
| `SysExSend.RoomForAllSends` | frameworks/native/midi/src/midi_client.cpp:577-613 | a try that finds room for everything still unwritten is the last one, and the call succeeds |
| `SysExSend.EachTryWrites` | frameworks/native/midi/src/midi_client.cpp:577-613 | in a ring with room for two packets that is drained at every turn, each try writes at least one packet |
| `SysExSend.DrainedTriesSend` | frameworks/native/midi/src/midi_client.cpp:577-613 | so as many turns as there are packets always send them all |
| `SysExSend.SendSysEx` | frameworks/native/midi/src/midi_client.cpp:615-638 | on success what was appended unpacks to the data, otherwise to a proper prefix of it; after a timeout the ring has no room for one more packet; a drained ring and as many turns as packets mean success; which arguments are refused |
| `Schedule.AccountImmediate` | services/server/src/midi_device_connection.cpp:428-466 | handing an immediate event on keeps the client's account balanced and in ring order |
| `Schedule.AccountDue` | services/server/src/midi_device_connection.cpp:514-533 | handing a due event on keeps the account balanced |
| `Schedule.LeftBehindExactly` | services/server/src/midi_device_connection.cpp:396-426 | if nothing arrives meanwhile, draining leaves events in a ring if and only if heap and timed events of the ring together exceed the heap's limit |
| `Schedule.StallsExactly` | services/server/src/midi_device_connection.cpp:375-381 | a pass leaves events in a ring and an empty heap if and only if there were more timed events than the heap takes, and what was pending with the timed events that fill it was all due |
| `Scheduler.ClientConnectionInServer.EnqueueNonRealtime` | services/server/src/midi_client_connection.cpp:59-72 | the heap gains the event unless it is full |
| `Scheduler.ClientConnectionInServer.PeekPendingTop` | services/server/src/midi_client_connection.cpp:74-78 | an event that none in the heap precedes |
| `Scheduler.ClientConnectionInServer.PopPendingTop` | services/server/src/midi_client_connection.cpp:80-86 | exactly one such event is removed |
| `Scheduler.ClientConnectionInServer.Flush` | services/server/src/midi_client_connection.cpp:88-93 | heap and ring are empty |
| `Scheduler.DeviceConnectionForOutput.TryAppendToSendCache` | services/server/src/midi_device_connection.cpp:539-579 | fails exactly if the cache has no room; the byte count is four times the cached words and within the limit |
| `Scheduler.DeviceConnectionForOutput.FlushSendCacheToDriver` | services/server/src/midi_device_connection.cpp:607-623 | a driver gets the whole cache in order; without one the cache stays |
| `Scheduler.DeviceConnectionForOutput.AppendOrFlush` | services/server/src/midi_device_connection.cpp:447-463 | with a driver exactly the payloads that are neither empty nor too large are kept; the driver is called if and only if the cache has no room, and gets all of it |
| `Scheduler.DeviceConnectionForOutput.ConsumeRealtimeEvent` | services/server/src/midi_device_connection.cpp:428-466 | the event leaves the ring and goes out once |
| `Scheduler.DeviceConnectionForOutput.ConsumeNonRealtimeEvent` | services/server/src/midi_device_connection.cpp:468-500 | the event moves from ring to heap, or both stay if the heap is full |
| `Scheduler.DeviceConnectionForOutput.DrainSingleClientRing` | services/server/src/midi_device_connection.cpp:396-426 | at most 128 events, with writers adding more all the time; why it stopped; what was taken and what is left |
| `Scheduler.DeviceConnectionForOutput.DrainAllClientsRings` | services/server/src/midi_device_connection.cpp:384-394 | for every client what was taken, what is left, and why draining stopped; only immediate events went out |
| `Scheduler.DeviceConnectionForOutput.FindClientWithEarliestDue` | services/server/src/midi_device_connection.cpp:582-605 | the first of the clients with an event due at the earliest time |
| `Scheduler.DeviceConnectionForOutput.CollectOne` | services/server/src/midi_device_connection.cpp:509-536 | one round hands on an event that no pending one precedes, or finds nothing due |
| `Scheduler.DeviceConnectionForOutput.CollectDueEventsFromClientHeaps` | services/server/src/midi_device_connection.cpp:503-536 | terminates; exactly the events due by the last clock reading are handed on, each once, in due order, and only later ones stay |
| `Scheduler.DeviceConnectionForOutput.UpdateNextTimer` | services/server/src/midi_device_connection.cpp:631-671 | armed exactly if an event is pending, for the time until the earliest is due and never 0 |
| `Scheduler.DeviceConnectionForOutput.HandleWakeupOnce` | services/server/src/midi_device_connection.cpp:375-381 | one pass: every event taken from a ring is once in the driver's output or pending; nothing a client writes is lost on the way, and a ring keeps nothing but what stands behind a full heap or came in meanwhile; immediate events go out in ring order, then exactly the due ones in due order; the timer is armed for the next |
| `Scheduler.DeviceConnectionForOutput.LeftBehindIsTimed` | services/server/src/midi_device_connection.cpp:631-671 | an event left in a ring has the timer armed, unless the heap fills up and what fills it is all due |
| `SchedulerRuns.OneIsLeft` | services/server/src/midi_device_connection.cpp:375-381 | a run in which nothing more is written: an overdue event stays in the ring, the heap is empty, the timer off |
| `SchedulerRing.ArrivesExactly` | services/common/src/midi_shared_ring.cpp:545-583 | what a write lets the scheduler see: all it appended, or nothing behind a header published with 0 |
| `SchedulerRing.WriteBehind` | services/common/src/midi_shared_ring.cpp:490-540 | a batch written while the scheduler works extends what it sees, by exactly the batch while all headers are visible and by nothing behind a dead one |
| `SchedulerRing.DrainSharedRing` | services/server/src/midi_device_connection.cpp:396-426 | the drain loop over the shared ring itself: peek, take or leave, commit; in step with the scheduler's ring all along |
| `Scheduler.DeviceConnectionForOutput.AddClientConnection` | services/server/src/midi_device_connection.cpp:230-244 | a new client with an empty account |
| `Scheduler.DeviceConnectionForOutput.RemoveClientConnection` | services/server/src/midi_device_connection.cpp:83-91 | the clients with other ids stay, in order and as often as before; their accounts stay balanced |
| `Scheduler.OthersInOrder` | services/server/src/midi_device_connection.cpp:83-91 | which clients stay is decided one by one, and they stay in order |
| `Scheduler.DeviceConnectionForOutput.FlushClientCache` | services/server/src/midi_device_connection.cpp:674-681 | only the clients with that id lose what they had waiting |
| `Ledger.JoinBalances` | services/server/src/midi_service_controller.cpp:281-303 | clients who join a device keep contexts and records in agreement |
| `Ledger.ConnectBalances` | services/server/src/midi_service_controller.cpp:495-532 | a new connection and one more on the client's count keep the books balanced |
| `Ledger.DisconnectBalances` | services/server/src/midi_service_controller.cpp:671-709 | a dropped connection and one less on the count keep the books balanced; the count was positive |
| `Ledger.ClearedAndLeft` | services/server/src/midi_service_controller.cpp:751-815 | closing all of a client's ports and leaving the device takes nothing from other clients |
| `Ledger.RemoveDevice` | services/server/src/midi_service_controller.cpp:949-998 | charging every client back what it had at a device keeps the books balanced without it |
| `Ledger.RemoveClient` | services/server/src/midi_service_controller.cpp:849-859 | a client in no context can be struck off |
| `BleRequests.AnswerBooks` | services/server/src/midi_service_controller.cpp:397-405 | taking an address's list answers exactly the requests that waited for it |
| `BleRequests.CancelOne` | services/server/src/midi_service_controller.cpp:861-872 | a destroyed client's requests are cancelled and no other |
| `BleRequests.RemoveIfInOrder` | services/server/src/midi_service_controller.cpp:861-872 | which requests stay is decided one by one, and they stay in order |
| `Controller.NoRoundLeft` | services/server/src/midi_service_controller.cpp:187-192 | pigeonhole: no more ids can turn out to be taken than there are clients, also round the end of the 32-bit range |
| `Controller.LimitAfterJoining` | services/server/src/midi_service_controller.cpp:421-436 | joining keeps the limit of 16 devices if and only if everybody who joins has room or the device already |
| `Controller.MidiServiceController.constructor` | services/server/src/midi_service_controller.cpp:47-51 | empty books are balanced |
| `Controller.MidiServiceController.NextClientId` | services/server/src/midi_service_controller.cpp:187-192 | an unused id that is not 0, the first one in cyclic order, within one round more than there are clients |
| `Controller.MidiServiceController.CreateMidiInServer` | services/server/src/midi_service_controller.cpp:160-219 | at most 8 clients and 2 per application; a failure changes no client |
| `Controller.MidiServiceController.OpenDevice` | services/server/src/midi_service_controller.cpp:258-305 | each error case; on success the client is in the context and the device in its record |
| `Controller.MidiServiceController.OpenPort` | services/server/src/midi_service_controller.cpp:453-618 | each error case of both directions; on success one connection and one more on the count; driver ports match connections |
| `Controller.MidiServiceController.CreateNewPortConnection` | services/server/src/midi_service_controller.cpp:513-532 | a port that cannot be used after all is closed again |
| `Controller.MidiServiceController.ClosePort` | services/server/src/midi_service_controller.cpp:647-748 | each error case; exactly that connection goes, and the driver's port with the last one |
| `Controller.MidiServiceController.ClosePortForDevice` | services/server/src/midi_service_controller.cpp:798-815 | the client is connected to no port of the device any more, everybody else as before |
| `Controller.MidiServiceController.CloseDevice` | services/server/src/midi_service_controller.cpp:751-796 | the client is out of context and record; the device, and its Bluetooth address, go with its last client, and one more address if its driver reports it removed; the others keep their ports |
| `Controller.MidiServiceController.CleanupDeviceForClient` | services/server/src/midi_service_controller.cpp:830-847 | the same for one device of a client that is being destroyed |
| `Controller.MidiServiceController.RemovePendingBleConnectionsForClient` | services/server/src/midi_service_controller.cpp:861-872 | the client's requests are cancelled, the others keep their order, no empty list stays |
| `Controller.MidiServiceController.DestroyMidiClient` | services/server/src/midi_service_controller.cpp:874-937 | nothing of the client is left in any map; exactly the devices it alone used are closed, and only their addresses forgotten; no other client loses a port or a waiting request |
| `Controller.MidiServiceController.CalculateClientPortCount` | services/server/src/midi_service_controller.cpp:949-965 | the number of the device's ports the client is connected to |
| `Controller.MidiServiceController.CleanupDeviceContext` | services/server/src/midi_service_controller.cpp:984-999 | the context is gone, every client of the device charged back exactly its ports there, the books balanced |
| `Controller.MidiServiceController.NotifyDeviceChange` | services/server/src/midi_service_controller.cpp:1013-1030 | a removed device is in no context and no record, one of its addresses is forgotten, and nobody is charged for it |
| `Controller.MidiServiceController.TryAttachToActiveBleDevice` | services/server/src/midi_service_controller.cpp:336-357 | attaches exactly if the address is active and its device has a context |
| `Controller.MidiServiceController.EnqueueBleConnectionRequest` | services/server/src/midi_service_controller.cpp:359-387 | an accepted request waits; a first request whose connection fails at once leaves no trace |
| `Controller.MidiServiceController.OpenBleDevice` | services/server/src/midi_service_controller.cpp:307-334 | every accepted request gets one ticket, waiting or answered at once, and answered only to a client that has the device open |
| `Controller.MidiServiceController.RegisterBleDeviceForPendingClients` | services/server/src/midi_service_controller.cpp:421-451 | the waiting clients join together; false exactly if there are none |
| `Controller.MidiServiceController.HandleBleOpenComplete` | services/server/src/midi_service_controller.cpp:389-451 | exactly the requests waiting for the address are answered, each once, in the order they were made, and with the outcome that arrived, none for the second time; on success everybody who waited has the device open; when the device limit survives; and that clients lose the device if and only if it succeeded, nobody waits and the close succeeds, namely all its clients |
| `Controller.MidiServiceController.CloseDriverDevice` | services/server/src/midi_device_mananger.cpp:460-487 | a device the driver closes is reported removed before the call returns: context, charges and address go with its open ports |
| `ControllerRuns.SeventeenDevices` | services/server/src/midi_service_controller.cpp:421-436 | a run from the start: a client that waits for a Bluetooth device opens sixteen others and gets the seventeenth |
| `ControllerRuns.ClosedInUse` | services/server/src/midi_service_controller.cpp:405-408 | a run from the start that connects a client and delivers the success again, as in `LosesDevice` |
| `ControllerRuns.LosesDevice` | services/server/src/midi_device_mananger.cpp:344-372 | the same from any state in which the client is connected to a port of the device and nobody waits for its address |
| `ControllerRuns.EveryRun` | services/server/src/midi_service_controller.cpp:160-1030 | after any calls in any order the books are balanced and every connected port is open; if no driver refuses to close a port, exactly the connected ports are |

## Left out

- RingConcurrent.DeliveryIsFifo: atomics are sequentially consistent steps, because weak memory ordering is a subject of its own; a writer's header and payload stores are single words in one order.
- SharedRing.MidiSharedRing.Flush: whether the flush flag is had in time is a parameter. Neither the read nor the write path looks at that flag, so a flush running beside them is not modelled.
- SharedRing.MidiSharedRing.TryWriteEvents: positions or headers broken by a hostile process are not modelled; the ring's invariant holds at entry.
- Futex.NoLostWakeup: for one waiter, since the code does not support two; a word holding a value other than its three, other kernel errors and the arithmetic of the remaining wait time are left out, and a timeout may strike whenever it could.
- SysExSend.SendSysExPackets: the two-second deadline is the number of tries before it, a parameter of any length; the consumer acts between the tries, its steps during a write being the matter of RingConcurrent.
- Scheduler.DeviceConnectionForOutput.DrainSingleClientRing: the ring is a queue of the events a reader sees, joined to the shared ring by SchedulerRing; null rings and copy failures are left out.
- Scheduler.ClientConnectionInServer.PeekPendingTop: which of several events due at the same time the standard library's heap yields is left open.
- Scheduler.DeviceConnectionForOutput.TryAppendToSendCache: the size limit is fixed at construction.
- Scheduler.DeviceConnectionForOutput.HandleWakeupOnce: order and exact account are stated for a connection with a driver; without one events are dropped when the cache is full.
- Controller.MidiServiceController.DestroyMidiClient: one step, although the code releases its lock before the driver's devices are closed; the same holds for CloseDevice.
- Controller.MidiServiceController.HandleBleOpenComplete: the callbacks to those who waited are entries of a log, in order; whether a client receives its callback is not modelled.
- Controller.MidiServiceController.CloseDevice: which of several Bluetooth addresses of the device is forgotten is left open.
- eventfd, epoll and timerfd calls, thread start and stop, shared memory mapping, file descriptors, IPC and parcels, logging, statistics and dumps: no state the properties speak of.
- Permissions, clocks and driver results are parameters or free choices.
- Notifications to clients, delayed unloading, FlushOutputPort in the controller and the device manager's own lookups: they change none of the maps.
- InputPort.DrainRingAndDispatch: a missing ring or callback, and when the receiving thread wakes; the callback gets the list that is returned, and none if it is empty.
- MidiOutputPort::Send, whose conversion keeps the old length, and the input direction's broadcast to clients in the server.
- Flex data, UMP stream and utility messages beyond their length.
