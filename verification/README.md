# A verified model of the RTOS kernel and the XRCE link

This project models, in Dafny 4.11, four parts of the repository and proves properties of them that
hold for every input, every interleaving or every reachable state.

1. **Kernel** (`rtos/src/scheduler.c`, `rtos/src/sync.c`). The priority round-robin scheduler with
   tick preemption and sleep, the priority-inheriting mutex, the wake-all semaphore and the bounded
   queue built from them. `Kernel` is a step machine: one step is one tick, one dispatch, or one pass
   of a call by the running task; a blocking call is one pass per turn round its re-check loop, so
   control may change hands anywhere between passes. `Scheduler.Rtos` is the code itself, loop for
   loop, proved to perform exactly those steps.
2. **Wire stack** (`xrce/src/serial_transport.c`, `cdr.c`, `msgs.c`, `session.c`). Byte-stuffed CRC
   framing (stuffing as in section 4.2 of RFC 1662) with a byte-fed resynchronising reader, aligned CDR
   (section 9.3 of CORBA 3.3 Part 2, the origin reset behind the encapsulation header), the nested
   message codecs and the CREATE builder.
3. **Reliable stream** (`xrce/src/reliable_stream.c` under `host/bench_qos.c`). The 32-slot retransmit
   window over 16-bit sequence numbers, in a system with a receiver that reports its lowest missing
   number, a data channel that loses, repeats and reorders, and an ACKNACK channel that loses.
4. **Authenticated link** (`xrce/src/sha256.c`, `hmac.c`, `secure_transport.c`,
   `host/secure_gateway.c`). The streaming hash against FIPS 180-4, HMAC against RFC 2104, counter
   freshness over whole runs, and the gateway end to end, composed with the framing of part 2.

## How it is built

Pure specifications and their theorems are functions and lemmas; every piece of source code that
updates things in place is a method over fields, sequences or arrays whose contract equates the new
state with the specification applied to the old one. Machine integers are mathematical integers with
explicit ranges; every wrap-around and truncation is written out. Where a specification function is
large (a compression function, HMAC, the CDR layout rule), lemmas take it as a function value `f`,
`hash`, `mac`, `lay` or `src` constrained by a predicate (`Computes`, `IsSha256`, `IsHmac`, `IsCdr`,
`Over`) that says it is that function; each is met by the function itself (`Cdr.LaidIsCdr`,
`SecureTransport.KeyedIsHmac`, `CdrValues.BufferIsOver`, and the callers `Hmac.HashParts` and `Hmac.Compute`).

Specifications shared by two sides (writer and reader, sender and receiver, code and theorem) are tied
down a second time, in terms that do not mention them: bytes and offsets on the wire in numerals
(`SessionWire.CreateOnWire`, `FrameDelivery.FrameOnWire`, `Cdr.NumbersAligned`, `SecureEnvelope.AcceptedIffCovered`),
ticks and milliseconds (`KernelTheorems.SleepIsExact`), single bits (`BitFunctions`), the polynomial
(`CrcPolynomial`), the roots of primes (`Sha256Tables`) and inverses (`Sha256Structure`).

| files | contents |
|---|---|
| `Kernel`, `KernelInvariants`, `KernelTheorems`, `Inheritance`, `NestedLocking`, `BoundedQueue`, `QueueContents` | the step machine, its invariant, and the theorems over runs |
| `Scheduler` | the scheduler and the synchronisation calls, updated in place |
| `Bytes`, `Automata`, `Options` | XOR and AND bit by bit, running a state machine, optional values |
| `Crc`, `CrcPolynomial`, `Framing`, `FrameDelivery`, `SerialTransport` | CRC-16/ARC, frames, the reader against a parser, the code in place |
| `Cdr`, `CdrValues`, `CdrStream`, `Messages`, `MessageLimits`, `Session`, `SessionWire` | CDR layout, typed values, writer and reader in place, messages, CREATE |
| `ReliableWindow`, `ReliableStream`, `ReliableSystem` | the window, the code in place, the whole system |
| `Sha256Spec`, `BitFunctions`, `Sha256Tables`, `Sha256Structure` | FIPS 180-4, and what its functions, constants and steps are apart from how they are written down |
| `Sha256Block`, `Sha256`, `Hmac` | the compression code, the streaming context, HMAC |
| `SecureEnvelope`, `SecureTransport`, `Relay`, `RelayTheorems`, `Gateway` | envelopes and counters, the code in place, the gateway |

## Results that qualify what the source says

* `xrce_serial_frame_encode` returns 0 exactly when the frame as actually stuffed does not fit; the
  comment at `xrce/include/xrce/serial_transport.h:58-59` says it does so below the worst case.
* The branch of `preempt_handler` for "no other READY task" cannot be taken: the current task has just
  been made READY (`Scheduler.Rtos.PreemptHandler`). A forced switch may therefore go from a task to
  itself, and `switches` counts it.
* With nested locking, unlocking a mutex gives its owner the priority it had when it acquired that
  mutex, so its base priority exactly when it was at its base then (`NestedLocking.UnlockRestoresIff`).
  A task that always releases the mutex it took first after the others never keeps a boost
  (`NestedLocking.OutermostLastRestoresBase`); one that releases the inner mutex last can
  (`NestedLocking.NestedLockingFails`).
* The window accepts 32 outstanding messages but keeps them all across an ACKNACK only up to 31
  (`ReliableWindow.AckRetainsIff`, `ReliableWindow.ThirtyTwoInARow`).
* The drain loop's exit test identifies the final ACKNACK exactly for fewer than 65536 messages
  (`ReliableSystem.ExitTestExactIff`).
* Of one sender's envelopes a receiver accepts everything that arrives exactly when the 32-bit
  counters of what arrives strictly increase (`SecureEnvelope.AllAcceptedIff`): always so within the
  first 2^32; one that has accepted any of them refuses the next (`SecureEnvelope.WrapAroundRefused`).
* An object id survives packing exactly when it has 12 bits and its kind 4
  (`Session.PackedRoundTrip`).

## Model

| member | source | states |
|---|---|---|
| `Scheduler.Rtos.constructor` | rtos/src/scheduler.c:247-250 | tick length and slice are at least 1 whatever is passed; the state is one from which every run of the theorems starts |
| `Scheduler.Rtos.PickNextReady` | rtos/src/scheduler.c:38-65 | the index returned is READY, no READY task has a higher priority, and no task of that priority comes earlier going round from the current one; -1 exactly when nothing is READY |
| `Scheduler.Rtos.UpdateTickBookkeeping` | rtos/src/scheduler.c:188-201 | every task is counted or woken exactly as its state says, in one pass |
| `Scheduler.Rtos.PreemptHandler` | rtos/src/scheduler.c:203-245 | a tick is exactly the machine's `Tick` step, including the forced switch at the end of a slice |
| `Scheduler.Rtos.ForcedSwitch` | rtos/src/scheduler.c:229-240 | the pick always exists, since the current task is READY; it runs, and the preempted one gets one pending switch |
| `Scheduler.Rtos.Resume` | rtos/src/scheduler.c:241-245 | a preempted task switched back in finishes its handler: the `Unwind` step |
| `Scheduler.Rtos.Dispatch` | rtos/src/scheduler.c:108-121 | one turn of the scheduler loop is exactly the `Dispatch` step |
| `Scheduler.Rtos.AddTask` | rtos/src/scheduler.c:17-22 | the 33rd task is dropped, others are appended READY |
| `Scheduler.Rtos.TaskSleep` | rtos/src/scheduler.c:286-299 | exactly the `Sleep` step, which `KernelTheorems.SleepIsExact` ties to milliseconds; nothing for `ms <= 0` |
| `Scheduler.Rtos.AddWaiter` | rtos/src/sync.c:13-22 | no duplicate, appended while there is room, dropped silently otherwise |
| `Scheduler.Rtos.WakeWaiters` | rtos/src/sync.c:52-55 | exactly the listed tasks become READY |
| `Scheduler.Rtos.MutexLock` | rtos/src/sync.c:24-43 | one pass of the loop is exactly the `Lock` step: acquire, or boost the owner, enlist and block |
| `Scheduler.Rtos.MutexUnlock` | rtos/src/sync.c:45-56 | exactly the `Unlock` step: saved priority, wake all, empty the list |
| `Scheduler.Rtos.SemWait` | rtos/src/sync.c:74-83 | one pass of the loop is exactly the `Wait` step |
| `Scheduler.Rtos.SemPost` | rtos/src/sync.c:85-95 | exactly the `Post` step |
| `KernelInvariants.StepKeepsInv` | rtos/src/sync.c:13-95 | every step keeps the kernel invariant: one RUNNING task, waiter lists duplicate-free and holding exactly the tasks blocked on them, sum of run ticks bounded |
| `KernelInvariants.RunKeepsInv` | rtos/src/scheduler.c:108-245 | the invariant holds in every reachable state |
| `KernelInvariants.WaiterAlwaysFits` | rtos/src/sync.c:19-21 | the silent drop of a waiter is unreachable |
| `KernelTheorems.NoLostWakeup` | rtos/src/sync.c:13-95 | in every run a task is blocked and not sleeping exactly when it is in a waiter list; that list is its own, and what it waits for is unavailable |
| `KernelTheorems.ReleaseWakesAll` | rtos/src/sync.c:45-95 | unlock and post make every task blocked on the object READY |
| `KernelTheorems.SleepIsExact` | rtos/src/scheduler.c:188-299 | through any run a sleeper stays blocked until tick `t` after the call, which ends the sleep: `t` is the whole number of ticks in `ms`, so `t * tick_ms <= ms < (t + 1) * tick_ms`, or 1 where that is 0 |
| `KernelTheorems.SleepOfNothing` | rtos/src/scheduler.c:286-289 | a sleep of zero or negative time changes nothing |
| `KernelTheorems.SliceIsExact` | rtos/src/scheduler.c:203-240 | through any run without a forced switch, a tick that finds a RUNNING task with nothing pending switches it out exactly when it is the `slice`-th such tick since the last forced switch |
| `KernelTheorems.BoundedBypass` | rtos/src/scheduler.c:38-65 | a task READY at top priority is passed over fewer times than there are tasks, in any run without new tasks |
| `KernelTheorems.RunAccounting` | rtos/src/scheduler.c:188-245 | at most one RUNNING task and it is the current one, `pending_preemptions` at most 1, total run ticks at most the ticks elapsed |
| `KernelTheorems.StatisticsAreExact` | rtos/src/scheduler.c:188-240 | in every run a task's `ticks_run` and `ticks_ready` are the numbers of ticks that found it RUNNING and READY, the tick count is the number of ticks and the switch count that of dispatches and ends of slices |
| `KernelTheorems.TableIsExact` | rtos/src/scheduler.c:17-22 | in every run the task table holds the first 32 tasks added, in order, with their priorities |
| `KernelTheorems.NewcomerRuns` | rtos/src/scheduler.c:17-65 | a task added above every READY priority is the next one dispatched |
| `KernelTheorems.ExitIsFinal` | rtos/src/task.c:14-20 | a task whose function has returned stays TERMINATED in every later state, whatever is unlocked, posted or due |
| `KernelTheorems.YieldGivesWay` | rtos/src/scheduler.c:134-143 | a yield leads to a dispatch, which takes the same task again exactly when every other READY task has a lower priority |
| `Inheritance.RunKeepsPrio` | rtos/src/sync.c:24-56 | without nesting an owner's priority is exactly the maximum of its base and its waiters', everyone else's is its base |
| `Inheritance.NoUnboundedInversion` | rtos/src/sync.c:24-43 | while a task waits on an inheriting mutex whose owner is READY, every pick runs at its priority or above, and is justified by a base priority that high |
| `Inheritance.UnlockRestoresBase` | rtos/src/sync.c:45-56 | in every disciplined run unlocking gives the owner its base priority back |
| `NestedLocking.UnlockRestoresIff` | rtos/src/sync.c:24-56 | nesting allowed: in every run, unlocking a mutex gives its owner the priority it had when it acquired it, so the base priority exactly when it was at its base then |
| `NestedLocking.OutermostLastRestoresBase` | rtos/src/sync.c:24-56 | nesting allowed: in every run in which tasks release the mutex they took first after the others, a task that holds none is at its base priority |
| `NestedLocking.NestedLockingFails` | rtos/src/sync.c:41-48 | from every fresh kernel with two mutexes a run leads to a task that holds nothing and keeps another task's priority |
| `BoundedQueue.RunKeepsQInv` | rtos/src/sync.c:97-124 | mutual exclusion, slot conservation, ring contents and program points are kept by every interleaving of kernel steps and queue calls |
| `BoundedQueue.QueueIsFifo` | rtos/src/sync.c:107-124 | items read are a prefix of items written, unread items are in the ring in order, and `slots_empty + slots_filled + calls in flight == capacity` |
| `QueueContents.NothingLostOrMadeUp` | rtos/src/sync.c:107-124 | in every run and for every item: times offered to `queue_send` are times written plus calls still carrying it, and times read are times returned by `queue_receive` plus calls still holding it |
| `QueueContents.ReceiveReturnsOldest` | rtos/src/sync.c:116-124 | whatever runs in between, a receive that has taken the oldest unread item returns that item |
| `QueueContents.SendAppendsItsItem` | rtos/src/sync.c:107-114 | whatever runs in between, a send appends the item it was called with |
| `BoundedQueue.WriteTargetsFreeSlot` | rtos/src/sync.c:107-114 | the slot a sender writes holds no unread item |
| `BoundedQueue.ReadTargetsOldest` | rtos/src/sync.c:116-124 | the slot a receiver reads holds the oldest unread item |
| `BoundedQueue.StuckMeansFullOrEmpty` | rtos/src/sync.c:97-124 | if every task inside the queue is blocked, receivers face an empty queue and senders a full one: the queue itself cannot deadlock |
| `Crc.Crc16Update` | xrce/src/serial_transport.c:8-18 | the bit loop computes eight steps of the reflected division |
| `Crc.ComputeCrc16` | xrce/src/serial_transport.c:20-26 | the byte loop computes the CRC of the buffer's prefix |
| `Crc.CrcIsBitRun` | xrce/src/serial_transport.c:8-26 | the bytewise CRC is the division of the message's bit string |
| `CrcPolynomial.MessageAndCrcAreMultiple` | xrce/src/serial_transport.c:8-26 | the bits of every message followed by those of its CRC are the coefficients of a multiple of x^16 + x^15 + x^2 + 1 |
| `Crc.CrcLinear` | xrce/src/serial_transport.c:8-26 | the CRC of the XOR of equal-length messages is the XOR of their CRCs |
| `Crc.BurstDetected` | xrce/src/serial_transport.c:8-26 | messages of any length that differ only within 16 consecutive bits have different CRCs |
| `Crc.AdjacentBytesDetected` | xrce/src/serial_transport.c:8-26 | messages that differ only within two adjacent bytes have different CRCs |
| `Crc.OddErrorsDetected` | xrce/src/serial_transport.c:8-26 | messages that differ in an odd number of bits have different CRCs |
| `SerialTransport.PutStuffed` | xrce/src/serial_transport.c:28-42 | appends the stuffed form of one octet exactly when it fits, else changes nothing |
| `SerialTransport.FrameEncode` | xrce/src/serial_transport.c:44-74 | the buffer holds the encoded frame exactly when the stuffed frame fits, else 0; nothing past the capacity is written |
| `SerialTransport.SerialReader.constructor` | xrce/src/serial_transport.c:76-88 | a fresh reader waits for a FLAG |
| `SerialTransport.SerialReader.TakeRaw` | xrce/src/serial_transport.c:99-111 | an ESC is consumed, the byte after it decoded, others pass |
| `SerialTransport.SerialReader.FeedByte` | xrce/src/serial_transport.c:113-196 | one byte moves the reader exactly as the automaton, every buffer store in bounds |
| `Framing.AfterValid` | xrce/src/serial_transport.c:113-196 | after every byte string the next payload store is in bounds |
| `Framing.ReaderRefinesParser` | xrce/src/serial_transport.c:99-196 | for every byte string the last byte reports frame `f` exactly when the bytes since the opening FLAG unstuff to source, local address, length within capacity, payload and its CRC |
| `FrameDelivery.UnstuffStuff` | xrce/src/serial_transport.c:28-111 | unstuffing undoes stuffing |
| `FrameDelivery.StuffHasNoFlag` | xrce/src/serial_transport.c:28-42 | stuffed bytes never contain a FLAG |
| `FrameDelivery.StuffedBytes` | xrce/src/serial_transport.c:28-42 | 0x7E travels as 0x7D 0x5E, 0x7D as 0x7D 0x5D, every other byte as itself |
| `FrameDelivery.FrameOnWire` | xrce/src/serial_transport.c:44-74 | a frame is 0x7E and no 0x7E behind it; unstuffed, source, destination, length low byte first, payload and CRC low byte first |
| `FrameDelivery.FrameDelivered` | xrce/src/serial_transport.c:44-196 | from every reader state outside an escape an encoded frame is delivered, once, and the reader waits again |
| `FrameDelivery.DamagedFrameRejected` | xrce/src/serial_transport.c:171-192 | a payload changed within 16 consecutive bits (so within two adjacent bytes) under the original length and CRC is never delivered |
| `FrameDelivery.NoiseIgnored` | xrce/src/serial_transport.c:113-135 | FLAG-free bytes between frames do nothing |
| `FrameDelivery.ResyncWithinOneFrame` | xrce/src/serial_transport.c:113-196 | from every reader state at all, of two frames in a row the second is delivered |
| `Cdr.LittleRoundTrip` | xrce/src/cdr.c:93-102 | reading the little-endian bytes of a number gives the number |
| `Cdr.PrimAt` | xrce/src/cdr.c:11-143 | in the layout of a field list each field stands between its own positions |
| `Cdr.PaddingAligns` | xrce/src/cdr.c:15-36 | padding leads to the next multiple of the width and is shorter than the width |
| `Cdr.NumbersAligned` | xrce/src/cdr.c:15-115 | in every field list each number starts at a multiple of its size from the alignment base, fewer than that many bytes behind the field before it, zeros in between, its little-endian bytes from there |
| `Cdr.LittleValues` | xrce/src/cdr.c:69-102 | the numbers that two and four bytes stand for, by powers of 256 |
| `CdrStream.Writer.WriteHeader` | xrce/src/cdr.c:45-55 | the four header bytes, and alignment starts over behind them |
| `CdrStream.Writer.WriteWord` | xrce/src/cdr.c:15-115 | a number is appended, aligned as `Cdr.NumbersAligned` says, exactly when padding and bytes fit |
| `CdrStream.Writer.WriteBytes` | xrce/src/cdr.c:80-87 | raw bytes are appended exactly when they fit |
| `CdrStream.Writer.WriteString` | xrce/src/cdr.c:117-131 | length including the terminator, characters, terminator, exactly when the length is within 32 bits and all fit |
| `CdrStream.Writer.WriteItems` | xrce/src/cdr.c:133-143 | a count and every element, exactly when all fit |
| `CdrStream.Writer.WriteValue` | xrce/src/cdr.c:57-143 | for every nested value, writing succeeds exactly when no string is too long for its length field and the aligned total fits, and appends the layout |
| `CdrStream.BufferReader.ReadHeader` | xrce/src/cdr.c:152-160 | accepts exactly CDR_LE, and alignment starts over behind it |
| `CdrStream.BufferReader.ReadWord` | xrce/src/cdr.c:25-231 | align, check, take: the declarative read of `CdrValues.NumberAccepted`, never past the end |
| `CdrStream.BufferReader.ReadBytes` | xrce/src/cdr.c:189-196 | exactly the bytes at the position, or failure |
| `CdrStream.BufferReader.ReadString` | xrce/src/cdr.c:233-247 | refuses length 0, a length above the capacity, missing bytes and a missing terminator |
| `CdrStream.BufferReader.ReadItems` | xrce/src/cdr.c:249-261 | refuses a count above the array, else reads that many elements in order |
| `CdrStream.BufferReader.ReadValue` | xrce/src/cdr.c:145-261 | the reads of a decoder compute the decoder of the type |
| `CdrValues.ReadsBack` | xrce/src/cdr.c:11-261 | wherever a value of any type was written among other fields, reading its type there gives it back and ends where writing ended |
| `CdrValues.RoundTrip` | xrce/src/cdr.c:11-261 | every value that fits its type reads back from its bytes, reader and writer positions equal |
| `CdrValues.NumberAccepted` | xrce/src/cdr.c:162-231 | a number is read exactly when its bytes are there, from the next multiple of its size; any octet but 0 is a true flag |
| `CdrValues.TextAccepted` | xrce/src/cdr.c:233-247 | a string is read exactly when its length is from 1 to the capacity, that many bytes are there and the last is 0 |
| `CdrValues.UpToNulIs` | xrce/src/cdr.c:233-247 | the C string in a buffer is what precedes its first 0 |
| `CdrValues.ListAccepted` | xrce/src/cdr.c:249-261 | a sequence is read exactly when its count is within the array and its elements are read one behind the other |
| `CdrValues.DecodedFits` | xrce/src/msgs.c:389-463 | for every kind of input, a decoded value fits the struct and ends within the input |
| `CdrValues.BufferDecodedFits` | xrce/src/msgs.c:389-463 | for the bytes of every buffer, a decoded value fits the struct and nothing past the end was read |
| `Messages.EncodeMessage` | xrce/src/msgs.c:3-11 | header and members are written exactly when they fit |
| `Messages.DecodeMessage` | xrce/src/msgs.c:13-17 | the decoding calls compute the declarative decoder |
| `Messages.MessageBytes` | xrce/src/msgs.c:3-11 | a message is the bytes 0, 1, 0, 0 and the layout of its members from there |
| `Messages.DecodeAfterEncode` | rtos/arm/ros2_demo.c:437-445 | the header can be stripped and another CDR_LE header put in its place without changing what is decoded |
| `Messages.DecodedMessageFits` | xrce/src/msgs.c:389-463 | whatever the bytes, a decoded message fits the struct: no string or array member is filled past its capacity |
| `MessageLimits.DecodedDiagnosticArray` | xrce/src/msgs.c:389-463 | whatever the bytes, a decoded DiagnosticArray has at most 16 statuses of at most 8 values, strings of at most 63 characters, and encodes to what was decoded |
| `MessageLimits.DecodedGoalStatusArray` | xrce/src/msgs.c:283-348 | whatever the bytes, a decoded GoalStatusArray has at most 8 entries with 16-byte ids and encodes to what was decoded |
| `Messages.DecodingSettles` | xrce/src/msgs.c:385-463 | decoding any bytes gives a value that encodes and decodes to itself |
| `Messages.EncodeDiagnosticArray` | xrce/src/msgs.c:427-443 | succeeds exactly when the message fits, with the message in the buffer |
| `Messages.DecodeDiagnosticArray` | xrce/src/msgs.c:445-463 | the struct is the decoded value, or failure |
| `Messages.DiagnosticArrayBack` | xrce/src/msgs.c:385-463 | the members written and the members read correspond one to one, within the array limits |
| `Messages.DiagnosticArrayOnWire` | xrce/src/msgs.c:385-443 | the primitives of an encoded array are exactly those of its members in the source's order, nested loops included |
| `Messages.DiagnosticArrayRoundTrip` | xrce/src/msgs.c:385-463 | every DiagnosticArray within its limits decodes back to itself |
| `Messages.GoalStatusArrayRoundTrip` | xrce/src/msgs.c:278-348 | every GoalStatusArray within its limits decodes back to itself |
| `Messages.GoalStatusArrayOnWire` | xrce/src/msgs.c:278-332 | the count, then for each goal its id, stamp and status |
| `Messages.CancelGoalResponseRoundTrip` | xrce/src/msgs.c:368-483 | every CancelGoal_Response within its limits decodes back to itself |
| `Messages.CancelGoalResponseOnWire` | xrce/src/msgs.c:278-383 | the return code, the count, then for each goal its id and stamp |
| `Messages.ImuRoundTrip` | xrce/src/msgs.c:36-104 | every Imu with a terminated frame id decodes back to itself |
| `Messages.ImuOnWire` | xrce/src/msgs.c:36-85 | stamp and frame id, then orientation, angular velocity and linear acceleration, each followed by its covariance |
| `Session.PackedRoundTrip` | xrce/src/session.c:49-64 | unpacking gives the low 12 bits of the id and 4 of the kind, so everything exactly when they fit |
| `Session.Backpatch` | xrce/src/session.c:100-103 | exactly two bytes change |
| `Session.BackpatchIs` | xrce/src/session.c:82-103 | writing length 0 and patching is writing the right length |
| `Session.WriteMessageHeader` | xrce/src/session.c:82-86 | 8 bytes, exactly when they fit |
| `Session.SubmessageHeaderAt` | xrce/src/session.c:94-98 | 4 more bytes with length 0, exactly when they fit |
| `Session.XrceSession.BuildCreate` | xrce/src/session.c:187-218 | the returned length is that of the whole message or 0, the bytes are the message with its patched length, the counters advance where the source advances them |
| `Session.CreateRoundTrip` | xrce/src/session.c:187-218 | reading a CREATE field by field gives back every field, consumes exactly the returned length, and the length field is the rest of the message in 16 bits |
| `SessionWire.CreateOnWire` | xrce/src/session.c:82-218 | every byte of a CREATE: ids, little-endian numbers, key, 1 and 1, the length, the request id high byte first, 12 bits of id and 4 of kind, 2, two zeros, the XML's length and characters, then the parent's id or the domain at the next even offset |
| `Session.NumberOfMessage` | xrce/src/session.c:196-204 | message number `n` after the first has the first number plus `n`, modulo 65536 |
| `ReliableStream.ReliableOut.constructor` | xrce/src/reliable_stream.c:9-11 | an empty window |
| `ReliableStream.ReliableOut.TrackMessage` | xrce/src/reliable_stream.c:13-30 | stores the message and reports success exactly when it is short enough and within the window |
| `ReliableStream.ReliableOut.HandleAcknack` | xrce/src/reliable_stream.c:32-47 | frees the acknowledged slots, records the position, arms and rewinds the sweep |
| `ReliableStream.ReliableOut.FreeUpTo` | xrce/src/reliable_stream.c:37-42 | the freeing loop terminates across wrap-around and frees what the recursion says |
| `ReliableStream.ReliableOut.TakeRetransmit` | xrce/src/reliable_stream.c:49-65 | the next occupied slot behind the cursor, or the end of the sweep |
| `ReliableStream.ReliableOut.SeekOccupied` | xrce/src/reliable_stream.c:53-62 | the cursor loop terminates across wrap-around at the first occupied slot or at the last sent number |
| `ReliableStream.ReliableOut.TakeAll` | host/bench_qos.c:438-440 | the driver's loop terminates and collects one sweep |
| `ReliableWindow.TakesIffRoom` | xrce/src/reliable_stream.c:13-22 | in unbounded numbers: taken exactly when fewer than 32 are outstanding |
| `ReliableWindow.TrackKeeps` | xrce/src/reliable_stream.c:13-30 | tracking keeps every outstanding message in its slot |
| `ReliableWindow.FreeClears` | xrce/src/reliable_stream.c:37-42 | freeing clears exactly the slots of the numbers walked over |
| `ReliableWindow.AckRetainsIff` | xrce/src/reliable_stream.c:32-47 | an in-window ACKNACK keeps all outstanding messages exactly when at most 31 were outstanding or none is left |
| `ReliableWindow.SweepAfterAck` | xrce/src/reliable_stream.c:32-65 | the sweep an ACKNACK arms emits exactly the messages it leaves outstanding, once, in order |
| `ReliableWindow.EmptyBitmapSweepsNothing` | xrce/src/reliable_stream.c:45-51 | an ACKNACK with bitmap 0 makes the next sweep empty |
| `ReliableWindow.SweepCounts` | xrce/src/reliable_stream.c:49-65 | the retransmission counter advances by the number of messages a sweep emits, modulo 2^32 |
| `ReliableWindow.ThirtyTwoInARow` | host/bench_qos.c:397-406 | after 32 messages in a row any but the final ACKNACK makes the window forget the newest |
| `ReliableSystem.StepKeepsInv` | xrce/src/reliable_stream.c:13-65 | sending, delivery, loss, reports and retransmission keep retention and the truth of every ACKNACK |
| `ReliableSystem.UnackedAlwaysStored` | xrce/src/reliable_stream.c:13-65 | in every run each unacknowledged message is in slot number mod 32 byte for byte, and every ACKNACK in flight is in window |
| `ReliableSystem.DrainedMeansDelivered` | host/bench_qos.c:388-444 | in every run the exit test passes exactly when all is acknowledged, and then the receiver holds every message byte for byte |
| `ReliableSystem.ExitTestExactIff` | host/bench_qos.c:441-443 | whatever the window, the test singles out the final ACKNACK among all in range exactly when fewer than 65536 messages were sent |
| `ReliableSystem.ExitTestAmbiguous` | host/bench_qos.c:441-443 | from 65536 messages on it also passes with 65536 of them not acknowledged |
| `ReliableSystem.LosslessRoundDrains` | host/bench_qos.c:408-444 | from every state of the invariant with no ACKNACK in flight, the run of one round without loss can be taken and ends with the exit test satisfied |
| `ReliableSystem.OutstandingResolves` | xrce/src/reliable_stream.c:13-30 | every outstanding message is told apart by its 16-bit number next to the receiver's lowest missing one |
| `Sha256Spec.PaddedIsWhole` | xrce/src/sha256.c:118-121 | the padding of section 5.1.1 of FIPS 180-4 ends on a block boundary and is the shortest that does |
| `Sha256Structure.PaddingBytes` | xrce/src/sha256.c:115-136 | below 2^61 bytes: the message, 0x80, zeros, and a last 8 bytes whose big-endian value is the length in bits |
| `Sha256Structure.PaddingInjective` | xrce/src/sha256.c:115-136 | different messages below 2^61 bytes have different paddings |
| `Sha256Structure.ScheduleIs` | xrce/src/sha256.c:31-39 | word `t` is four bytes of the block, most significant first, or the sum of words `t-16`, `t-7` and the small sigmas of words `t-15`, `t-2`, modulo 2^32 |
| `Sha256Structure.CompressionUndone` | xrce/src/sha256.c:41-69 | the compression minus the hash value it started from, run backwards through all rounds, is that hash value again |
| `Sha256Structure.DigestWords` | xrce/src/sha256.c:140-145 | bytes `4i` to `4i + 3` of the digest are word `i`, most significant first |
| `Sha256Structure.HashIsChain` | xrce/src/sha256.c:72-146 | the digest is the last value of the chain of compressions over the padded message, 64 bytes at a time |
| `Sha256Tables.PrimesInOrder` | xrce/src/sha256.c:9-21 | the table of primes the constants are checked against leaves no prime out |
| `Sha256Tables.ConstantsAreCubeRoots` | xrce/src/sha256.c:9-21 | constant `i` is the first 32 bits of the fraction of the cube root of the `i`-th prime |
| `Sha256Tables.InitialValueIsSquareRoots` | xrce/src/sha256.c:74-81 | the initial words are those of the square roots of the first 8 primes |
| `BitFunctions.ChAt` | xrce/src/sha256.c:46-46 | bit `k` is that of the second word where the first has bit `k`, else that of the third |
| `BitFunctions.MajAt` | xrce/src/sha256.c:49-49 | bit `k` is set exactly when it is in at least two of the three words |
| `BitFunctions.BigSigma0At` | xrce/src/sha256.c:48-48 | bit `k` is the parity of bits `k + 2`, `k + 13`, `k + 22` modulo 32 |
| `BitFunctions.BigSigma1At` | xrce/src/sha256.c:45-45 | bit `k` is the parity of bits `k + 6`, `k + 11`, `k + 25` modulo 32 |
| `BitFunctions.SmallSigma0At` | xrce/src/sha256.c:36-36 | bit `k` is the parity of bits `k + 7`, `k + 18` modulo 32 and bit `k + 3` |
| `BitFunctions.SmallSigma1At` | xrce/src/sha256.c:37-37 | bit `k` is the parity of bits `k + 17`, `k + 19` modulo 32 and bit `k + 10` |
| `Sha256Block.RotrIsShiftOr` | xrce/src/sha256.c:23-25 | the rotation of the specification is the source's two shifts put together with OR |
| `Sha256Block.ExtendSchedule` | xrce/src/sha256.c:35-39 | the loop continues the loaded words by the recurrence of section 6.2.2 of FIPS 180-4 |
| `Sha256Block.ScheduleExtends` | xrce/src/sha256.c:31-39 | loading 16 words and continuing them gives the message schedule |
| `Sha256Block.RunRounds` | xrce/src/sha256.c:44-60 | the loop over eight variables computes the rounds |
| `Sha256Block.CompressBlock` | xrce/src/sha256.c:29-70 | one block is exactly the compression function |
| `Sha256Stream.Context.constructor` | xrce/src/sha256.c:72-84 | the initial hash value, nothing taken in |
| `Sha256Stream.Context.Update` | xrce/src/sha256.c:86-113 | after any update the context stands for the concatenation: whole blocks hashed, the rest buffered, the length counted in 64 bits |
| `Sha256Stream.Context.PadLoop` | xrce/src/sha256.c:128-132 | the zero loop terminates after exactly the number of zeros the standard asks for |
| `Sha256Stream.Context.Final` | xrce/src/sha256.c:115-146 | the digest is that of the padded message |
| `Hmac.HashParts` | xrce/src/sha256.c:72-146 | for every way of cutting a message into updates the digest is SHA-256 of the message |
| `Hmac.Hash` | xrce/src/sha256.c:148-153 | the one-shot digest is SHA-256 |
| `Hmac.FillKeyBlock` | xrce/src/hmac.c:10-24 | keys above 64 bytes are hashed, all are zero-padded to one block |
| `Hmac.Compute` | xrce/src/hmac.c:8-46 | the result is HMAC of section 2 of RFC 2104 for every key and message |
| `Hmac.HmacByteByByte` | xrce/src/hmac.c:8-46 | for keys up to 64 bytes and above: the hash of 64 key bytes XOR 0x5c and the hash of 64 key bytes XOR 0x36 and the message, the key zero-padded, or its hash in its place |
| `SecureEnvelope.AcceptsExactlyFreshWraps` | xrce/src/secure_transport.c:50-107 | unwrapping accepts exactly what wrapping a short enough payload under a newer counter produces, and yields that payload |
| `SecureEnvelope.AcceptedIffCovered` | xrce/src/secure_transport.c:69-107 | on the bytes: accepted exactly when there are 12 to 328, bytes 4 to 11 are the first 8 of the MAC of all the others, and bytes 0 to 3, most significant first, are above the last counter accepted |
| `SecureEnvelope.RefusedFor` | xrce/src/secure_transport.c:69-100 | which of the three refusals is given, the size looked at first, then the tag, then the counter; none changes the state |
| `SecureEnvelope.AlteredPayload` | xrce/src/secure_transport.c:82-96 | an accepted envelope altered behind its first 12 bytes is accepted only if the two MACs agree on 8 bytes, else it has a bad tag |
| `SecureEnvelope.EnvelopeBytes` | xrce/src/secure_transport.c:50-67 | an envelope is 4 bytes of counter, 8 of the MAC of counter and payload, and the payload |
| `SecureEnvelope.AcceptanceRule` | xrce/src/secure_transport.c:69-107 | over any run an envelope is accepted exactly when its tag is right and its counter is above every counter accepted before |
| `SecureEnvelope.NeverTwice` | xrce/src/secure_transport.c:98-106 | accepted counters strictly increase and no envelope is accepted twice |
| `SecureEnvelope.RejectionLeavesNoTrace` | xrce/src/secure_transport.c:69-100 | dropping a rejected envelope from a run changes no later state |
| `SecureEnvelope.AllAcceptedIff` | xrce/src/secure_transport.c:50-107 | for streams of any length and whatever is lost: everything that arrives is accepted with its payload exactly when its 32-bit counters strictly increase |
| `SecureEnvelope.EverySubsequenceAccepted` | xrce/src/secure_transport.c:50-107 | every subsequence of one sender's first 2^32 wraps is accepted with the original payloads |
| `SecureEnvelope.WrapAroundRefused` | xrce/src/secure_transport.c:65-100 | the wrap after that is refused as a replay |
| `SecureTransport.TagsDiffer` | xrce/src/secure_transport.c:90-96 | the accumulated XOR is zero exactly when the tags agree |
| `SecureTransport.Context.ComputeTag` | xrce/src/secure_transport.c:41-48 | the tag is the first 8 bytes of the HMAC of the four counter bytes and the payload, within the scratch buffer |
| `SecureTransport.Context.Wrap` | xrce/src/secure_transport.c:50-67 | the envelope under the current counter, or nothing changed when payload or buffer are out of bounds |
| `SecureTransport.Context.Unwrap` | xrce/src/secure_transport.c:69-107 | verdict and new state are those of the specification; rejections change nothing |
| `Relay.ForwardedIs` | host/secure_gateway.c:101-121 | a genuine new envelope always becomes its plain frame; the output buffer never overflows |
| `Relay.GatewayIsTransparent` | host/secure_gateway.c:206-228 | whatever frames are lost and whatever FLAG-free bytes arrive between them, the agent gets exactly the plain frames of the payloads |
| `RelayTheorems.SenderIsTransparent` | host/secure_gateway.c:101-228 | the same for every list of at most 2^32 payloads of at most 316 bytes as the board wraps them |
| `RelayTheorems.TunnelIsTransparent` | host/secure_gateway.c:126-253 | a downlink feeding an uplink carries every byte stream: out come exactly the frames in it that are short enough to wrap |
| `RelayTheorems.UplinkIsAuthentic` | host/secure_gateway.c:206-228 | for every byte stream the agent gets only plain frames inside envelopes that were on the wire, each with bytes 4 to 11 the MAC of all the others, counters strictly increasing |
| `Gateway.ProcessSecureFrame` | host/secure_gateway.c:101-121 | the code forwards exactly what the specification forwards |
| `Gateway.WrapAndEncode` | host/secure_gateway.c:126-136 | the code emits exactly the enveloped frame and advances the counter as specified |
| `Gateway.BoardByte` | host/secure_gateway.c:206-228 | one byte from the board moves reader and context, and is answered, as specified |
| `Gateway.AgentByte` | host/secure_gateway.c:230-253 | the same for a byte from the agent |
| `Gateway.RunUplink` | host/secure_gateway.c:178-228 | the uplink loop from start-up writes exactly the specified stream |

## Left out

- Context switches, signal masks, timers and stack canaries (`rtos/src/scheduler.c:76-106`, `rtos/src/task.c`): a tick, a dispatch and one pass of a synchronisation call are atomic steps, as the source does not mask the tick inside `sync.c`; `g_preempt_enabled` is always on and 64-bit tick overflow is not modelled.
- `queue_send` and `queue_receive` as methods: they are modelled as sequences of steps on values, because other tasks run between their calls.
- Inversion bounds across nested locking: `Inheritance.NoUnboundedInversion` assumes a task takes no second mutex while holding one; what nesting does to the restored priority is `NestedLocking`.
- Reordered ACKNACKs and a driver that keeps sending beyond 31 outstanding messages: outside `ReliableSystem`; the 32-message case is `ReliableWindow.ThirtyTwoInARow`.
- Packets delayed by half of the sequence number space: a packet of `ReliableSystem` carries its unbounded number, so its data channel may delay and reorder without limit, which a 16-bit number alone could not tell apart; for outstanding messages it does (`ReliableSystem.OutstandingResolves`).
- Slot memory beyond a stored message's length, and struct arrays beyond their count: slots, strings and arrays of the messages are bounded sequences.
- Sha256Stream.Context.Final: the standard defines messages below 2^61 bytes; for longer ones the contract says the length bytes are those of the true bit length modulo 2^64.
- The meaning of floating-point members: a `double` is its 64-bit pattern.
- Cryptographic strength of the truncated tag: only functional equality with the standards.
- The messages Int32, String, Twist, Trigger and Fibonacci of `msgs.c`: fixed lists of numbers, at most one string or one sequence of `int32`, all values of `CdrValues.Type` that `CdrValues.RoundTrip` and `Messages.DecodeAfterEncode` cover.
- The other builders and parsers of `session.c` (CREATE_CLIENT, DELETE, WRITE_DATA, READ_DATA, DATA, HEARTBEAT, ACKNACK, STATUS): the same two headers and backpatched length around fixed fields.
- The agent, DDS, sockets, logging, the Cortex-M port, host demos and scripts.
