# Verified model of the headphone firmware's log pipeline and fixed-point code

The project models five parts of the Cortex-M0 firmware and proves what they promise.

1. **The two-core debug log** (`Drv_debug.c`, with `DEF_PRINTHEX` and `LOG_PROTECT_OVERFLOW`).
   The Cortex-M0 and the "respin" core write 32-bit records to a ring of 14 slots behind
   Peterson's lock; the Cortex-M0 drains the ring in batches, frames each batch and feeds the
   frames to a second ring that the UART empties.
   - `Peterson.dfy`: the lock, one access to a shared byte per step.
   - `LogFifo.dfy`: the atomic bounded queue that callers are meant to see.
   - `LogRing.dfy`: the ring in memory and how it represents the queue.
   - `Frames.dfy`: the frame format and its receiver. `Words.dfy`: records and bytes.
   - `UartRing.dfy`: the transmit ring between `uart_txChar` and the hardware.
   - `LogSystem.dfy`: all of it together, with every interleaving of single accesses, and the
     invariant that every step keeps.
   - `LogRuns.dfy`: the main results on whole runs, from the calls to the wire: each core performs
     what it was called for, the shared ring is linearizable, and what arrives on the wire are the
     flags and values that were logged and the dumps that were called for.
   - `LogProgress.dfy`: what the same system gets done: the lock is given up and obtained in bounded
     time, and everything accepted can always still reach the wire.
   - `LogDriver.dfy`: the same code between lock and UART as sequential methods on arrays.
2. **Fixed-point arithmetic** (`arm_math.h`): `Reciprocal.dfy` (Newton reciprocals in Q15 and
   Q31), `Pid.dfy` (the Q15 controller over whole runs), `Interpolation.dfy` (table
   interpolation in q15 and q7) and `CircularBuffer.dfy` (strided block writes and reads).
3. **The mSBC driver** (`Drv_msbc.c`): `Msbc.dfy`.
4. **The intrusive circular list** (`kservice.h`): `RingList.dfy`.
5. **The bit reversal loop** (`cmsis_gcc.h`): `BitReverse.dfy`.

`Arithmetic.dfy` holds shared facts about products, remainders and powers of two.

## How the concurrent system is modelled

A schedule is any sequence of calls, single accesses of either core and steps of the UART
hardware; a step that is not possible when it is scheduled changes nothing, so "for all
schedules" is "for all interleavings". Memory is sequentially consistent. `memcpy` of a record is
four byte reads. The two reads of the lock's wait condition are separate steps, and the initial
victim byte is arbitrary. The respin core's source is not in the repository; it is the mirror
image of get_lock and free_lock around the same enqueue. The record of what has happened
(operations in lock order, frames, answers, what each core was asked for) is kept in the state
beside the program's variables and never read by the steps. `LogDriver` proves the same critical
sections, as methods on the real array, against the same queue.

Constants come from `cm0/patch/btreg.h`: 14 slots, victim bytes 0x35 and 0x53.

## Where the code falls short of what it suggests

- `arm_linear_interp_q15` and `_q7` give a whole segment the weight 0xFFFFF instead of 0x100000.
  From zero on they are still nondecreasing for a nondecreasing table; over all arguments exactly
  when the first entry is not positive or is the only one (`Interpolation.MonotoneEverywhereIff`).
- Their documentation speaks of tables of up to 2^12 entries; with a signed argument an entry can
  change a result exactly when it is one of the first 2^11 + 1 (`Interpolation.EntryMattersIff`), so
  a table can be used in full exactly up to that length (`Interpolation.FullyUsedIff`).
- The circular buffer functions say that they watch for negative strides; the offset stays inside
  the buffer from everywhere exactly for strides from 0 to the length
  (`CircularBuffer.StepStaysInsideIff`), and with other strides for blocks that end before the drift
  leaves the buffer (`CircularBuffer.InsideIff`).
- `arm_circularWrite_q15` hands its offset back in 16 bits: blocks can be chained from every offset
  exactly in buffers of at most 2^16 cells, or when the stride does not move the offset
  (`CircularBuffer.ChainsIff`).
- `arm_circularRead_q15` takes its destination back to the base only when the pointer meets the end
  exactly. All blocks are stored inside the destination exactly when the stride divides its length
  and the start (`CircularBuffer.AlwaysInsideIff`); `CircularBuffer.DestinationInsideIff` says which
  blocks are stored inside otherwise.
- `arm_recip_q31` of a negative input is never on the right side of zero (`Reciprocal.RecipQ31`).
- A frame whose length exceeds 46 keeps its unclamped length byte; the receiver can tell a frame
  from what follows exactly up to 46 (`Frames.SelfDelimitingIff`). Both callers stay below.
- The mSBC driver's registers meet whenever whole source rings are outstanding, so that a push that
  makes them whole looks already encoded (`Msbc.PushIsVisibleIff`): the only block of a ring of one,
  and the second of two in a ring of two (`Msbc.InvisiblePushes`). A push keeps the hand-off and the
  data exactly when both rings have room (`Msbc.PushIsSafeIff`); the driver does not check that.
- Each completed encode releases one frame, however many blocks it completed: when nothing more can
  be taken, all that was encoded has been delivered exactly when no block was pushed while another
  was outstanding (`Msbc.AllDeliveredIff`), and otherwise a frame for each such block stays behind
  for ever (`Msbc.BacklogStays`, `Msbc.SecondFrameStays`).
- `Drv_mSBC_enable` leaves mMsbcCoding alone: a frame that was still expected looks available at once
  (`Msbc.EnableRestartsIff`). It leaves lengthSBC alone too: when a frame was half taken, no run of packet calls lines
  phase and read offset up again (`Msbc.EnableAlignsIff`), and whole-frame calls give parts of two
  frames or read past the ring (`Msbc.WholeFrameIff`, `Msbc.EnabledMidFrame`).

## Model

| member | source | states |
|---|---|---|
| Peterson.MutualExclusion | cm0/Example/headphone/Drv_debug.c:273-285 | under every interleaving of single accesses and from every victim byte, the cores are never both between get_lock and free_lock |
| Peterson.ExecKeepsGood | cm0/Example/headphone/Drv_debug.c:273-285 | the inductive invariant of the lock: flags follow the program counters, and a core that reached the wait loop while the other is inside is the victim |
| Peterson.NonVictimEnters | cm0/Example/headphone/Drv_debug.c:277-278 | a waiting core that is not the victim goes in within two accesses of its own, whatever the other does in between |
| Peterson.NeverBothStuck | cm0/Example/headphone/Drv_debug.c:277-278 | in every reachable state where both wait, one of them is not the victim and goes in |
| Peterson.BypassedAtMostOnce | cm0/Example/headphone/Drv_debug.c:275-279 | between a core's write of the victim byte and its entry the other core goes in at most once |
| Peterson.NoStarvation | cm0/Example/headphone/Drv_debug.c:273-285 | a waiting core goes in once a busy other core has performed five accesses and it has performed two after those |
| Peterson.IdleCoreLetsIn | cm0/Example/headphone/Drv_debug.c:273-285 | a waiting core goes in with its second access at the latest while the other stays outside |
| Words.RecordRoundTrip | cm0/Example/headphone/Drv_debug.c:246 | flag and value are recovered from a record and determine it |
| Words.RecordBytes | cm0/Example/headphone/Drv_debug.c:246 | a record in memory is the value and then the flag, each with its lower byte first |
| Words.WordRoundTrip | cm0/Example/headphone/Drv_debug.c:78-84 | four little-endian bytes give the word back |
| Words.WordsRoundTrip | cm0/Example/headphone/Drv_debug.c:216-217 | the copied bytes of a batch give its records back, in order |
| Words.WriteLongValue | cm0/Example/headphone/Drv_debug.c:78-84 | stores a value so that the four bytes read back as it, and touches no other byte |
| LogFifo.Conservation | cm0/Example/headphone/Drv_debug.c:197-270 | after any operations, accepted records are the drained ones followed by the queued ones, and at most 13 are queued |
| LogFifo.AcceptedFromPushed | cm0/Example/headphone/Drv_debug.c:248-263 | overflow only leaves whole pushed records out; the others keep their order |
| LogFifo.AllAcceptedWithRoom | cm0/Example/headphone/Drv_debug.c:248-263 | nothing is left out while the queue has room |
| LogFifo.VerdictsTell | cm0/Example/headphone/Drv_debug.c:181-196 | every probe of a run has been answered true exactly when all that was accepted before it had been drained |
| LogFifo.DrainsConserve | cm0/Example/headphone/Drv_debug.c:213-221 | any number of drains keeps drained followed by queued |
| LogFifo.DrainsToEmpty | cm0/Example/headphone/Drv_debug.c:181-221 | with nothing pushed in between, k drains empty the queue exactly when k is at least ceil(pending / 11) |
| LogRing.StoreIsInvisible | cm0/Example/headphone/Drv_debug.c:245-246 | storing a record before publishing it disturbs no live record |
| LogRing.PublishAccepts | cm0/Example/headphone/Drv_debug.c:247-263 | publishing takes the stored record in as the newest, or drops it when 13 records are live |
| LogRing.AdvanceRemovesOldest | cm0/Example/headphone/Drv_debug.c:216-219 | advancing the read index removes exactly the oldest record, also around the end of the array |
| LogRing.EmptyIffIndicesMeet | cm0/Example/headphone/Drv_debug.c:190-195 | the ring is empty exactly when the indices are equal |
| LogDriver.CopyRecord | cm0/Example/headphone/Drv_debug.c:216-217 | appends the record's bytes to the payload copied so far |
| LogDriver.LogBuffer.constructor | cm0/Example/headphone/Drv_debug.c:170-177 | initialisation gives a cleared, empty ring; the lock bytes are cleared in Peterson.Initial |
| LogDriver.LogBuffer.IsEmpty | cm0/Example/headphone/Drv_debug.c:181-196 | true exactly when no record is pending |
| LogDriver.LogBuffer.Enqueue | cm0/Example/headphone/Drv_debug.c:245-263 | appends the record to the pending ones, or leaves them as they are when the ring is full |
| LogDriver.LogBuffer.TakeOldest | cm0/Example/headphone/Drv_debug.c:216-220 | one round moves the oldest record to the send buffer |
| LogDriver.LogBuffer.TakeBatch | cm0/Example/headphone/Drv_debug.c:203-221 | removes exactly the oldest min(pending, 11) records and copies their bytes; the loop ends although the indices wrap |
| LogDriver.LogBuffer.TxBuffer | cm0/Example/headphone/Drv_debug.c:8-15 | hands over exactly the given bytes in order |
| LogDriver.BatchReceived | cm0/Example/headphone/Drv_debug.c:223-231 | what a drain sends decodes to one frame of type 0 with exactly the records of the batch, and is nothing for an empty batch |
| LogDriver.OneRecordSent | cm0/Example/headphone/Drv_debug.c:116-133 | the eight bytes of a single record on the wire |
| LogDriver.LogBuffer.PrintLogToUart | cm0/Example/headphone/Drv_debug.c:197-233 | sends the removed batch as one frame, and nothing when there is none; the bytes added decode to exactly the records removed |
| LogDriver.LogBuffer.PrintLog | cm0/Example/headphone/Drv_debug.c:235-270 | takes the record in if there is room and then drains; the bytes added decode to exactly the records removed |
| LogDriver.LogBuffer.PrintRoundBuffer | cm0/Example/headphone/Drv_debug.c:86-106 | the bytes added decode to one frame of type 1 with the buffer's number and its four pointers |
| Frames.BuildFrame | cm0/Example/headphone/Drv_debug.c:116-133 | puts 0xAA, type, unclamped length and 0xBB around the payload in place; for lengths up to 46 the bytes are the encoding of that frame |
| Frames.SelfDelimitingIff | cm0/Example/headphone/Drv_debug.c:120-131 | what is sent can be told from what follows it if and only if the length is at most 46 |
| Frames.EncodeThenAnything | cm0/Example/headphone/Drv_debug.c:110-133 | a frame at the front of a stream is received whole, whatever its payload and whatever follows |
| Frames.DecodeArrived | cm0/Example/headphone/Drv_debug.c:110-133 | from any beginning of a stream of frames the receiver gets exactly those that have arrived completely |
| Frames.DecodeEncodeAll | cm0/Example/headphone/Drv_debug.c:110-133 | decoding a whole stream gives the list of frames back, also with 0xAA or 0xBB in payloads |
| Frames.DumpPayload | cm0/Example/headphone/Drv_debug.c:92-101 | a dump's payload is 17 bytes |
| Frames.DumpRoundTrip | cm0/Example/headphone/Drv_debug.c:92-101 | the buffer's number and the four pointers are read back from a dump |
| UartRing.ExecKeepsGood | cm0/Example/headphone/Drv_debug.c:17-24 | every step of producer and hardware keeps the ring's invariant |
| UartRing.StoreKeepsUnsent | cm0/Example/headphone/Drv_debug.c:20-21 | a store never overwrites an unsent byte |
| UartRing.TransmitKeepsGood | cm0/Example/headphone/Drv_debug.c:36-38 | the hardware sends the oldest unsent byte |
| UartRing.WaitsIff | cm0/Example/headphone/Drv_debug.c:20 | uart_txChar waits exactly while 40 bytes or more are unsent |
| UartRing.TransmitRing | cm0/Example/headphone/Drv_debug.c:17-24 | in every interleaving the pointer stays inside the 50-byte buffer, at most 40 bytes are unsent, and sent, buffered and held bytes are the offered ones in order |
| LogSystem.AccessHolds | cm0/Example/headphone/Drv_debug.c:213-263 | every single access inside a critical section moves the holder's operation along and leaves the ring where the atomic queue says |
| LogSystem.ApplyKeepsGood | cm0/Example/headphone/Drv_debug.c:181-285 | every step of either core and of the hardware keeps the system's invariant |
| LogRuns.AskedByCalls | cm0/Example/headphone/Drv_debug.c:181-285 | over a whole run each core is asked, in order, for exactly the operations of the calls that found it idle: the push of the given flag and value with a drain after it, a drain, or a probe |
| LogRuns.FramesByCalls | cm0/Example/headphone/Drv_debug.c:86-133 | over a whole run the dumps given to the UART are those called for, in order and with their numbers and pointers, and every other frame holds 1 to 11 log records |
| LogRuns.PushesMerge | cm0/Example/headphone/Drv_debug.c:197-285 | the pushes in lock order are an interleaving of those of the two cores |
| LogRuns.Linearizable | cm0/Example/headphone/Drv_debug.c:181-285 | whenever the lock is free, the ring and all probe answers are those of the atomic queue after the operations in lock order; each core performs the operations of its calls in their order |
| LogRuns.EndToEnd | cm0/Example/headphone/Drv_debug.c:8-270 | at any time the (flag, value) pairs in the frames received from the wire are the first accepted ones, which are the pairs logged by the calls of both cores, each core's in the order of its calls, less those dropped on overflow; the dumps received are the first called for |
| LogRuns.EverythingArrives | cm0/Example/headphone/Drv_debug.c:8-270 | when all is quiet, the wire carries every accepted record and every dump called for, and all that was called for has been performed |
| LogProgress.AccessCounts | cm0/Example/headphone/Drv_debug.c:213-221 | each access brings the holder one access closer to releasing the lock |
| LogProgress.SectionIsBounded | cm0/Example/headphone/Drv_debug.c:187-265 | a core that holds the lock gives it up within 58 accesses of its own, in every interleaving |
| LogProgress.StepNearer | cm0/Example/headphone/Drv_debug.c:273-285 | every step of anybody keeps or lowers the work left until a core that wants the lock has it, and the access of the core in the way lowers it |
| LogProgress.EveryCallGetsTheLock | cm0/Example/headphone/Drv_debug.c:181-285 | every operation gets the lock within 190 rounds of accesses of both cores, whether the other core is busy, idle, sending or wants the lock too |
| LogProgress.ChosenDownhill | cm0/Example/headphone/Drv_debug.c:8-285 | in every state that is not quiet some step is possible that brings the end nearer: nothing ever blocks the system |
| LogProgress.EverythingCanArrive | cm0/Example/headphone/Drv_debug.c:8-285 | from every reachable state a continuation without new records leads to the end, where the wire carries every accepted record |
| Reciprocal.NewtonStep | cm0/cmsis/arm_math.h:592-601 | from any value in range a step stays in range and strictly below the true reciprocal; T*E' lies in [E^2, E^2 + 3*in*T) |
| Reciprocal.TwoSteps | cm0/cmsis/arm_math.h:641-652 | the final error of both steps in terms of the table entry's error |
| Reciprocal.WithinFourUnits | cm0/cmsis/arm_math.h:641-658 | with table entries good to one part in 64 the Q15 result is less than 4 units below the true reciprocal and never above it |
| Reciprocal.WithinUnitsQ31 | cm0/cmsis/arm_math.h:592-604 | the Q31 result is then less than 132 units below, and with entries good to one part in 128 less than 12 |
| Reciprocal.ClipSaturates | cm0/cmsis/arm_math.h:484-489 | the clip is saturation to 32 bits, for every 64-bit value |
| Reciprocal.StepQ15IsExact | cm0/cmsis/arm_math.h:645-651 | no product wraps and the cast to q15 truncates nothing |
| Reciprocal.StepQ31IsExact | cm0/cmsis/arm_math.h:594-600 | no product wraps and the clip never changes the value |
| Reciprocal.StepQ15Truncates | cm0/cmsis/arm_math.h:645-651 | for all inputs and values, also negative ones, the step is Newton's step cut to 16 bits |
| Reciprocal.StepQ31Saturates | cm0/cmsis/arm_math.h:594-600 | for negative inputs the step is Newton's step, saturated |
| Reciprocal.CountLeadingZeros | cm0/cmsis/arm_math.h:543-557 | the count places the highest set bit |
| Reciprocal.Normalises | cm0/cmsis/arm_math.h:573-583 | the shift by the count brings any positive input into the upper half of the width |
| Reciprocal.Normalise | cm0/cmsis/arm_math.h:571-583 | any input but zero is shifted up to use the whole width, with its sign |
| Reciprocal.RecipQ15 | cm0/cmsis/arm_math.h:614-659 | for every positive input and non-negative table: normalised input, result strictly below the true reciprocal, error bound from the table entry; for a negative input the same steps from its normalised value |
| Reciprocal.RecipQ31 | cm0/cmsis/arm_math.h:563-608 | the same for Q31; for a negative input the result is at least as far off as zero |
| Pid.Ssat | cm0/cmsis/arm_math.h:666-698 | the value of a signed width of 1 to 31 bits that is nearest to the argument |
| Pid.OutputSaturates | cm0/cmsis/arm_math.h:4903-4904 | in every state the output is the accumulator in units of 2^15 rounded down, or the bound of the range that the accumulator is beyond |
| Pid.NoOverflow | cm0/cmsis/arm_math.h:4896-4908 | in every state, saturated or not, products, accumulator and saturated argument fit their words |
| Pid.Instance.Process | cm0/cmsis/arm_math.h:4876-4917 | one call gives the truncated and saturated accumulator and moves the delay line |
| Pid.VelocityIsPosition | cm0/cmsis/arm_math.h:4739-4745 | on every run the textbook value is the output plus exactly what the steps have discarded |
| Pid.OutputBracketsPosition | cm0/cmsis/arm_math.h:4739-4745 | without saturation the textbook value lies in [2^15*y, 2^15*(y + n)) |
| Interpolation.BothWidthsAgree | cm0/cmsis/arm_math.h:5548-5647 | q15 and q7 are the same function of the table |
| Interpolation.IsChord | cm0/cmsis/arm_math.h:5548-5647 | the result is the chord of the segment less the missing unit of weight, rounded down, and the end entries outside the table, for both widths |
| Interpolation.ResultIsTight | cm0/cmsis/arm_math.h:5574-5588 | every result is between the neighbouring entries, one below at most, and fits the table's width |
| Interpolation.SegmentsMeet | cm0/cmsis/arm_math.h:5580-5588 | the last point of a segment is the first point of the next |
| Interpolation.Monotone | cm0/cmsis/arm_math.h:5548-5590 | for a nondecreasing table the results are nondecreasing from zero on, across segments and into the clamp |
| Interpolation.MonotoneEverywhereIff | cm0/cmsis/arm_math.h:5561-5571 | over all arguments this holds if and only if the first entry is not positive or is the only one |
| Interpolation.EntryMattersIff | cm0/cmsis/arm_math.h:5543-5588 | an entry can change some result if and only if it is one of the first 2^11 + 1 |
| Interpolation.FullyUsedIff | cm0/cmsis/arm_math.h:5543-5588 | every entry can be used if and only if there are at most 2^11 + 1 |
| CircularBuffer.StepStaysInsideIff | cm0/cmsis/arm_math.h:5930-5933 | every offset stays inside the buffer if and only if the stride is between 0 and the length |
| CircularBuffer.InsideIff | cm0/cmsis/arm_math.h:5919-5937 | for every stride, which blocks stay inside the buffer |
| CircularBuffer.OffsetIsModular | cm0/cmsis/arm_math.h:5919-5937 | the offset after k steps is (start + k*stride) mod length |
| CircularBuffer.OffsetsMeetIff | cm0/cmsis/arm_math.h:5919-5937 | two steps visit the same cell exactly when the strides between them are whole turns |
| CircularBuffer.DistinctIff | cm0/cmsis/arm_math.h:5919-5937 | exactly when a block visits different cells only |
| CircularBuffer.WriteLeavesOthers | cm0/cmsis/arm_math.h:5922-5937 | cells that are not visited are unchanged |
| CircularBuffer.LastWriteStays | cm0/cmsis/arm_math.h:5922-5937 | a visited cell holds the last sample written to it |
| CircularBuffer.ReadBack | cm0/cmsis/arm_math.h:5905-5999 | reading back gives the written block if and only if no two different samples meet in a cell, for all cells and so all strides |
| CircularBuffer.BlockComesBack | cm0/cmsis/arm_math.h:5905-5999 | a block of any samples comes back when no shorter run of strides is whole turns |
| CircularBuffer.CircularWrite | cm0/cmsis/arm_math.h:5905-5943 | the loop writes the strided source samples to the cells it visits, for every stride that stays inside, and returns the offset cut to 16 bits |
| CircularBuffer.ChainsIff | cm0/cmsis/arm_math.h:5905-5943 | two calls do what one call with both blocks does, from every offset, if and only if the buffer has at most 2^16 cells or the stride does not move the offset |
| CircularBuffer.CircularRead | cm0/cmsis/arm_math.h:5949-5999 | the loop reads the samples into the destination positions, which go back to the base when they meet the end |
| CircularBuffer.PositionIsOffset | cm0/cmsis/arm_math.h:5976-5982 | with a stride that divides length and start the equality test wraps exactly as a comparison would |
| CircularBuffer.DestinationInsideIff | cm0/cmsis/arm_math.h:5976-5982 | for every positive stride, which blocks are stored inside the destination |
| CircularBuffer.AlwaysInsideIff | cm0/cmsis/arm_math.h:5976-5982 | all blocks are, if and only if the stride divides the length and the start |
| CircularBuffer.BackwardsInsideIff | cm0/cmsis/arm_math.h:5976-5982 | without a positive stride, which blocks are stored inside the destination |
| Msbc.Msbc.Init | cm0/Example/headphone/Drv_msbc.c:21-39 | goes on exactly with whole blocks and whole frames |
| Msbc.Msbc.RefreshWptr | cm0/Example/headphone/Drv_msbc.c:62-75 | one wrap takes the write pointer on modulo the ring, and the driver then takes the push for encoded exactly when the registers are whole rings apart |
| Msbc.Msbc.CheckMsbcCoding | cm0/Example/headphone/Drv_msbc.c:91-113 | delivers 57 bytes when a frame is available, and otherwise changes nothing |
| Msbc.Msbc.CheckMsbcCodingPacket | cm0/Example/headphone/Drv_msbc.c:115-155 | delivers the next piece when a frame is available, and otherwise changes nothing |
| Msbc.EnableAlignsIff | cm0/Example/headphone/Drv_msbc.c:41-155 | after an enable every later run of packet calls keeps the pieces inside the ring, and phase and read offset agree if and only if no frame was half taken |
| Msbc.WholeFrameIff | cm0/Example/headphone/Drv_msbc.c:91-113 | where a whole-frame call begins to read, when it stays inside the ring, and that exactly then it keeps phase and read offset as they are to each other |
| Msbc.EnabledMidFrame | cm0/Example/headphone/Drv_msbc.c:41-155 | an enable after one piece: 37 bytes of the first frame, then a whole-frame call gives the other 20 and 37 of the second |
| Msbc.EnableRestartsIff | cm0/Example/headphone/Drv_msbc.c:41-155 | after an enable the registers meet, a frame looks available exactly when one was still expected, and runs go on as from the start, counting from zero, if and only if none was expected or half taken |
| Msbc.HandOff | cm0/Example/headphone/Drv_msbc.c:62-89 | the registers are equal exactly when whole source rings of blocks are outstanding |
| Msbc.ApplyKeepsSound | cm0/Example/headphone/Drv_msbc.c:62-155 | every push, encode and delivery, however much is pushed, keeps the pointers equal to the totals modulo the rings |
| Msbc.PointersOnEveryRun | cm0/Example/headphone/Drv_msbc.c:62-155 | on every run the phase is 0, 20 or 40 and the read offset modulo 57, all accesses stay inside the ring, and the write pointer is 240 times the pushes modulo the ring |
| Msbc.PushIsVisibleIff | cm0/Example/headphone/Drv_msbc.c:62-89 | from every state, a push is seen if and only if it does not make the outstanding blocks whole source rings |
| Msbc.InvisiblePushes | cm0/Example/headphone/Drv_msbc.c:62-89 | the only block in a ring of one and the second in a ring of two look encoded already |
| Msbc.NextBytes | cm0/Example/headphone/Drv_msbc.c:91-151 | an available frame or piece has been encoded, lies inside the output ring and is the next part of the encoded bytes |
| Msbc.ApplyKeepsGood | cm0/Example/headphone/Drv_msbc.c:62-155 | every encode and delivery, and every push with room, keeps the hand-off and the undelivered bytes intact |
| Msbc.PushIsSafeIff | cm0/Example/headphone/Drv_msbc.c:62-75 | a push keeps the hand-off, and whatever is encoded next the undelivered bytes, if and only if both rings have room |
| Msbc.DeliveredInOrder | cm0/Example/headphone/Drv_msbc.c:62-155 | on every run whose pushes find room the registers are equal exactly when all is encoded, and the delivered bytes are the first encoded bytes |
| Msbc.Backlog | cm0/Example/headphone/Drv_msbc.c:62-155 | on every run, what is pushed and not delivered is one frame for each block pushed while another was outstanding, plus the rest of the current frame |
| Msbc.AllDeliveredIff | cm0/Example/headphone/Drv_msbc.c:62-155 | when nothing more can be taken, all that was encoded has been delivered if and only if no block was pushed while another was outstanding |
| Msbc.BacklogStays | cm0/Example/headphone/Drv_msbc.c:62-155 | those frames stay undelivered in every later run |
| Msbc.SecondFrameStays | cm0/Example/headphone/Drv_msbc.c:62-113 | two blocks pushed and encoded before the first frame is taken: the second frame is never offered |
| Msbc.PatientDriver | cm0/Example/headphone/Drv_msbc.c:62-113 | a driver that pushes only when nothing is outstanding always finds room, and the k-th frame it gets is the k-th encoded |
| Msbc.ThreePiecesAreOneFrame | cm0/Example/headphone/Drv_msbc.c:91-155 | three pieces deliver the same bytes and reach the same state as one whole frame |
| RingList.Node.constructor | cm0/device/kservice.h:40-43 | a new node is a ring of its own |
| RingList.InsertAfter | cm0/device/kservice.h:51-58 | the ring becomes the sequence with the node inserted behind the place; any other list stays a list |
| RingList.InsertBefore | cm0/device/kservice.h:66-73 | the same in front of the place |
| RingList.Remove | cm0/device/kservice.h:79-85 | the ring becomes the sequence without the node, the node a ring of its own; any other list stays a list |
| RingList.IsEmpty | cm0/device/kservice.h:91-94 | true exactly when the ring has no node but its head |
| RingList.ForEach | cm0/device/kservice.h:111-114 | the traversal ends and visits every node but the head, in list order |
| RingList.InsertThenRemove | cm0/device/kservice.h:51-85 | removing what was inserted gives the ring back and leaves the node alone |
| RingList.RingIsDetermined | cm0/device/kservice.h:111-114 | the links determine the whole sequence from its first node |
| RingList.RingsShareAllOrNothing | cm0/device/kservice.h:40-94 | two lists that share a node are the same ring read from different nodes |
| RingList.RotationIsRing | cm0/device/kservice.h:40-94 | a ring may be read from any of its nodes |
| BitReverse.Rbit | cm0/cmsis/cmsis_gcc.h:526-545 | for every width and word, bit i of the result is bit width-1-i of the word |
| BitReverse.PartlyGoesOn | cm0/cmsis/cmsis_gcc.h:536-541 | a round extends the reversed low part whatever the leftover high bits are, and there is a shift left for it |
| BitReverse.LastShift | cm0/cmsis/cmsis_gcc.h:542 | the final shift throws the leftover high bits out |
| BitReverse.ReversedBit | cm0/cmsis/cmsis_gcc.h:526-545 | bit i of a reversed word is bit n-1-i of the word |
| BitReverse.ReversedTwice | cm0/cmsis/cmsis_gcc.h:526-545 | reversing twice gives the word back |

## Left out

- Hardware registers, pins, clocks and baud rates: UART and encoder appear only as steps that advance their pointers; a two-byte pointer write counts as one access.
- Peterson.Lock, LogSystem.Sys and UartRing.Uart: modelled on values with one function per access, because other parties run between the accesses; in-place updates are in LogDriver.
- Interrupts on the Cortex-M0: the critical sections disable them, and uart_txBuffer is assumed to have one caller at a time.
- Scheduling: that a core is scheduled again at all is not modelled; the progress results count accesses and rounds.
- The first test of init_print_log, which reads through a pointer that is not set yet: the model starts from the state that lines 170 to 177 set.
- Reciprocal.RecipQ15: leaves out zero, for which the count does not end, and the most negative input, for which the shift is negative; for other negative inputs it says which steps are taken (StepQ15Truncates says what each gives), not how far the result is off. The library's tables are not in the repository, so every table of 64 non-negative entries is allowed.
- Reciprocal.RecipQ31: leaves out zero and the most negative input, as above.
- Reciprocal.CountLeadingZeros: excludes zero, for which the loop does not end.
- Pid.Instance.constructor: stands for the absent initialisation functions; the controller starts from rest with the given gains.
- Msbc.Apply: a whole-frame call in the middle of a frame is not an action of the runs (WholeFrameIff says what one does), nor is an empty source or output ring, which the driver accepts.
- LogDriver.LogBuffer.constructor: does not hold the lock bytes; they are in Peterson.Initial and LogSystem.Start.
- CircularBuffer.CircularRead: leaves out a destination that overlaps the circular buffer.
- RingList.InsertAfter: leaves out a node that is in the same ring already; LIST_Entry's pointer arithmetic is left out, the traversal works on nodes.
- The q7 and q31 variants of the circular buffer, the Q31 and floating-point controllers, the q31 interpolation, filters, transforms and matrices.
- clip_q31_to_q7 and clip_q63_to_q15, which none of the modelled functions calls.
- The memory pool, the device registry, register layouts and inline assembly, which are declarations and hardware access without logic that the modelled parts depend on.
