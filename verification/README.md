# The AESD character device and its socket server, verified

This project models the AESD character driver (`aesd-char-driver/`), the
intrusive queues in `server/queue.h` and the connection handling of
`server/aesdsocket.c`, and proves what they do over whole runs.

**The device.** `CharDevice.Device` is the driver: the ring of ten slots with its
two pointers, the growing accumulator in front of it, the device mutex, and an
explicit kernel memory in which every block is live until it is freed. It is
measured against `PacketLog`, where the device is an unbounded log of packets of
which the last ten are readable, plus the pending bytes. `DeviceRuns.RunDriver`
drives the real slots and pointers through an arbitrary run of calls from
arbitrarily many open files, with arbitrary failures of allocations and user
copies, and `WholeLife` tears the device down then: every call returns what the log says, the ring
ends up with the last ten packets of the log, and nothing stays allocated. On
that log the run theorems are stated: what a reader among writers gets
(`ReaderSeesTheLog`), and how the log is cut out of the history of writes
(`RunCutsTheHistory`, and with failing writes `FailingWrites.RunFollowsHistory`).
What each caller gets is said as well: when and how a write, a read or a seek fails,
where a file that seeks reads on (`SeekThenRead`, `SeekerSeesTheLog`), and that the
device stops working exactly when a seek named no readable byte
(`WedgedIffRefused`, `AfterRefusal`).

**The server.** `ServerProtocol` lets any number of connection threads
interleave, and `ServerRuns` says what holds of every run. A failed seek makes the
server unlock its mutex twice (`server/aesdsocket.c:236-238`). As long as no
second unlock finds the mutex held by another thread while the device still
works, every reply is what the device held when that reply began, and it contains
the thread's own message unless ten packets followed it. A refused seek never
breaks this: the refusal leaves the device mutex locked
(`aesd-char-driver/main.c:221-231`), so after it no device operation of any thread
completes (`RefusedSeeksAreHarmless`). A seek whose argument cannot be copied fails
before the device mutex is taken, and its second unlock can steal the mutex. Then
the claim is false: `TornReply.FaultTearsReply` gives a run, on a device the driver
reaches, with a reply that mixes two states, and `FaultShiftsSeek` one in which an
accepted seek is answered from another byte than the one it named.
`OnlyTheftThenCommitTears` says which runs can do this: those in which, after such
a theft, another thread commits a packet while the reply is under way.

`ReplyPlaces` follows the bytes of a reply through any run, thefts included, by
their places in the log. `Snapshots.SnapshotIff` gives the exact condition, for
every run and every reply: it is, place by place, what the device held when the
reply began (all of it, or all of it from the byte sought, or a first part when a
read failed) if and only if each of its reads either starts among the bytes held
then, with nothing evicted since, or starts behind them and finds the end (a read
that fails is not asked for).
`ReplyPlaces.WholeIffNothingEvicted` compares a reply with another state, the one in
which it ends: a nonempty reply read to its end is all that is readable there
exactly when nothing was evicted since its first bytes were sent.
`PacketDelivery.SentWholeIff` is about one packet, the thread's own for instance:
whatever happened to the rest of the reply, that packet is in it whole exactly when
some read starts at its first byte and nothing is evicted until it has been read.

`ServerHistory` says what the messages of a run leave in the device, and
`ServerProgress` that connections can be served: from any state with a free mutex
and a working device a connection can run to its end, with its message stored once
and everything readable sent back, and as long as nothing was stolen and no
connection was empty, no thread is ever without a way to its end. One connection
that sends nothing stops all the others (`EmptyMessageStopsTheServer`).

`Connection.Serve` follows one connection through the receive loop, the device
and the reply, with everything it cannot know (how its bytes arrive, which calls
fail) as an input; `ThreadReaper` is the thread list and its sweep.

**The queues.** A head and an entry of a tail queue have the same two words, so
one kind of cell stands for both and the address of a next-word is the cell that
holds it. The macros are methods that rewrite these words; each queue keeps the
sequence of its cells as a ghost field that `Valid()` ties to the links.

Files: `Bytes`, `Sequences`, `PacketLog`, `WriteHistory` (what is said about bytes,
sequences and logs); `CircularBuffer`, `KernelMemory`, `CharDevice`, `DeviceRuns`,
`FailingWrites` (the driver); `Receiver`, `Connection`, `ServerProtocol`,
`ServerRuns`, `ServerHistory`, `ServerProgress`, `ReplyPlaces`, `Snapshots`,
`PacketDelivery`, `TornReply`, `ThreadReaper` (the server); `TailQueue`, `SingleTailQueue`, `CircleQueue` (the
queues). Many proofs use `hide` so that a definition they do not need is not
unfolded.

The code is followed where it departs from what one would expect. A failed
allocation for the packet returns an error but keeps the new bytes, newline
included, as pending (`main.c:158-170`); a failed user copy drops earlier pending
bytes (`main.c:153`). Both are in `PacketLog.WriteTo`;
`WriteHistory.SplitAgreesIff` says what the former means for split writes, and
`FailingWrites` what both mean for a whole history. After a
failed enlargement of the receive buffer the server goes on with the size doubled
over the old buffer (`server/aesdsocket.c:189-195`, `303`); `Connection.Serve` goes
on too, and says exactly when the read-back then leaves the buffer. A
connection that sends nothing ends with the server mutex locked
(`server/aesdsocket.c:180`, `206-291`), which is a step of `ServerProtocol.Does`.

## Model

| member | source | states |
|---|---|---|
| `CircularBuffer.Ring.constructor` | aesd-char-driver/aesd-circular-buffer.c:99-102 | an initialised ring holds nothing and every slot is vacant |
| `CircularBuffer.Ring.AddEntry` | aesd-char-driver/aesd-circular-buffer.c:61-94 | the entries in reading order become the old ones with the new one behind them, minus the oldest if there were ten; the pointer returned is the oldest entry's in that case and null otherwise; a ring that is not full starts at slot 0 and a full one has both pointers equal |
| `CircularBuffer.StoreIsPush` | aesd-char-driver/aesd-circular-buffer.c:69-90 | writing the slot at the write pointer and stepping the pointers round is a push on the entries in reading order |
| `CircularBuffer.Ring.FindEntryOffsetForFpos` | aesd-char-driver/aesd-circular-buffer.c:29-52 | null exactly when the position is at or past the total length; otherwise the slot holds the one entry in which that position lies, with the offset inside it |
| `CircularBuffer.Ring.WalkIsLogical` | aesd-char-driver/aesd-circular-buffer.c:35-49 | the walk modulo ten from the read pointer visits the entries in reading order |
| `CircularBuffer.Ring.Size` | aesd-char-driver/aesd-circular-buffer.c:104-115 | the scan in storage order counts the entries in reading order that hold a pointer |
| `CircularBuffer.Ring.TotalSize` | aesd-char-driver/aesd-circular-buffer.c:118-129 | the scan in storage order sums the sizes of the entries in reading order that hold a pointer |
| `CircularBuffer.ScanOrderIrrelevant` | aesd-char-driver/aesd-circular-buffer.c:104-130 | storage order and reading order agree on both counts, whatever the rotation |
| `KernelMemory.Kmem.Kmalloc` | aesd-char-driver/main.c:125-130 | null and no change on failure; otherwise a new block of that length at an address not in use |
| `KernelMemory.Kmem.Krealloc` | aesd-char-driver/main.c:136-148 | on failure the old block stays; otherwise the block, moved or not, starts with the old bytes |
| `KernelMemory.Kmem.Kfree` | aesd-char-driver/main.c:179-183 | only a live block can be freed, and it is marked as freed once |
| `KernelMemory.Kmem.CopyIn` | aesd-char-driver/main.c:150-156 | the copy must fit in the block, keeps what is in front of it, and on a fault may have spoilt what it was to write |
| `CharDevice.Device.constructor` | aesd-char-driver/main.c:291-300 | a new device is the empty log with nothing pending and nothing allocated |
| `CharDevice.Device.MakeRoom` | aesd-char-driver/main.c:122-148 | the accumulator gets room for the new bytes or nothing changes; the pending bytes survive growth |
| `CharDevice.Device.Append` | aesd-char-driver/main.c:150-158 | the new bytes are behind the pending ones; a faulting copy leaves nothing pending |
| `CharDevice.Device.Commit` | aesd-char-driver/main.c:160-186 | the pending bytes become the newest packet of the log, the block of the packet pushed out is freed, and on failure neither ring nor pending bytes change |
| `CharDevice.Device.Write` | aesd-char-driver/main.c:113-192 | it returns its length exactly when there is or comes room, the copy works, and a packet can be allocated if one is due; log, pending bytes, capacity, result and file position are those of the log model for every pattern of failures; a failing write leaves the ring as it was; live blocks stay exactly the distinct slot pointers and the accumulator, whose size stays within its capacity and whose capacity is its allocated length |
| `CharDevice.OwnsAfterStore` | aesd-char-driver/main.c:172-183 | storing a new block over a slot and freeing the block it pointed to keeps the live blocks exactly the owned ones |
| `CharDevice.RepresentsAfterStore` | aesd-char-driver/main.c:172-185 | the same step pushes the new bytes onto the packets that the pointers in reading order hold |
| `CharDevice.Device.Read` | aesd-char-driver/main.c:66-107 | result, bytes and new position are those of a read from the flattened readable packets, cut at the end of the packet |
| `CharDevice.Device.ReadLocked` | aesd-char-driver/main.c:76-106 | the same, while the mutex is held, from the slot that the position search finds |
| `CharDevice.Device.LlseekSize` | aesd-char-driver/main.c:195-205 | the size handed to the generic seek is the number of readable bytes |
| `CharDevice.Device.UnlockedIoctl` | aesd-char-driver/main.c:207-249 | a seek is accepted exactly when it names a byte of a readable packet, and then the position is that byte's in the flattened packets; a refused one returns with the mutex locked; other commands and a faulting copy change nothing |
| `CharDevice.Device.FindPacket` | aesd-char-driver/main.c:221-237 | the check against the number of pointers and the size in the slot accepts exactly the bytes of readable packets |
| `CharDevice.Device.SizesBefore` | aesd-char-driver/main.c:233-237 | the loop over slots modulo ten sums the readable bytes in front of a packet |
| `CharDevice.SizesOnRecord` | aesd-char-driver/aesd-circular-buffer.c:104-130 | on every state the driver reaches, the number of pointers is the number of readable packets and the sum of sizes is the number of readable bytes |
| `CharDevice.Device.Snapshot` | aesd-char-driver/aesd-circular-buffer.c:35-49 | the packets in the ring, read from the read pointer, are the last ten of the log |
| `CharDevice.Device.Cleanup` | aesd-char-driver/main.c:323-342 | after teardown no block is live, every block ever issued was freed, and no slot holds a pointer |
| `DeviceRuns.RunDriver` | aesd-char-driver/main.c:66-248 | a new device, driven through every run with any files, interleaving and failures, returns for each call what the unbounded log says, and its ring, accumulator and mutex are in the end what that log says |
| `DeviceRuns.WholeLife` | aesd-char-driver/main.c:66-342 | after such a run the walk over the ring finds the last ten packets of the log and the accumulator what is pending; teardown then leaves nothing allocated and no slot with a pointer |
| `DeviceRuns.RunCutsTheHistory` | aesd-char-driver/main.c:113-192 | after every run in which nothing fails, the log is the history of writes cut behind each chunk with a newline and the pending bytes are the uncut rest |
| `FailingWrites.RunFollowsHistory` | aesd-char-driver/main.c:122-186 | after any run, with any allocations and copies failing, log and pending bytes are the packets and the rest of its history, in which a write without room has no part, a failed copy drops what was pending and a failed packet allocation holds its bytes back for the next write |
| `FailingWrites.PacketsSnoc` | aesd-char-driver/main.c:150-186 | what one more write, successful or not, does to the packets and the rest of a history that is cut from its front |
| `FailingWrites.HistoryConserves` | aesd-char-driver/main.c:150-170 | every packet holds a newline; every byte that went in is in a packet, pending, or lost by a failed copy; without such a loss packets and rest are the bytes in order |
| `FailingWrites.WithoutFailures` | aesd-char-driver/main.c:158-186 | when nothing fails, the packets are the history cut behind every chunk with a newline |
| `DeviceRuns.ReaderSeesTheLog` | aesd-char-driver/main.c:66-192 | in every run, from any moment on from which no seek moves a file, that file gets exactly the log bytes at evicted bytes plus position; the places go up and never overlap; and each gap is exactly what was evicted, or written through that same file, in between, the one before the first delivery being measured from where the file stood |
| `DeviceRuns.StepMovesReader` | aesd-char-driver/main.c:100-102 | per call: the position moves by what is delivered to or written through the file, and what is delivered is the log at evicted bytes plus position |
| `DeviceRuns.CursorIsExplained` | aesd-char-driver/main.c:66-192 | at every moment of a run the reader's place in the log is its last delivery's end, or where it stood, plus the evictions and own writes since |
| `DeviceRuns.StepKeepsLog` | aesd-char-driver/main.c:160-186 | no call shortens the log, moves its bytes or makes evicted bytes readable again |
| `DeviceRuns.SeekThenRead` | aesd-char-driver/main.c:233-242 | a read behind an accepted seek returns the bytes of the named packet from the named byte on, as many as asked for or left in it |
| `DeviceRuns.SeekerSeesTheLog` | aesd-char-driver/main.c:233-242 | in every run, a file reads on from the byte that its last accepted seek named, as `ReaderSeesTheLog` says; undisturbed, its first delivery starts at that byte's place in the log |
| `DeviceRuns.WritesReturnTheirLength` | aesd-char-driver/main.c:187-191 | in every run without failures and refusals, every write returns its length and moves its file by it |
| `DeviceRuns.WedgedIffRefused` | aesd-char-driver/main.c:220-231 | the device mutex is left locked exactly in the runs in which some seek named no readable byte |
| `DeviceRuns.AfterRefusal` | aesd-char-driver/main.c:213-246 | after such a seek the device never changes, and only a seek whose argument cannot be copied and a foreign ioctl still return, with EFAULT and ENOTTY |
| `DeviceRuns.SizeIsWhatReadsDeliver` | aesd-char-driver/main.c:195-205 | the size that bounds a seek from user space is the number of bytes that reads from the beginning deliver |
| `PacketLog.RetainedPush` | aesd-char-driver/aesd-circular-buffer.c:77-85 | the last ten of a log with one more packet are the last ten before with that packet pushed |
| `PacketLog.WriteConserves` | aesd-char-driver/main.c:113-192 | a failing write adds nothing to the log; a succeeding one adds its bytes exactly once, to the log or to the pending bytes |
| `PacketLog.WriteReturns` | aesd-char-driver/main.c:122-191 | a write returns its length exactly when no kernel call that it makes fails, EFAULT exactly when there is room and the copy fails, ENOMEM exactly when room or the packet cannot be allocated |
| `PacketLog.RoomAfterWrite` | aesd-char-driver/main.c:125-148 | after the accumulator was enlarged, exactly the next fifty bytes need no allocation; otherwise its room does not change |
| `PacketLog.ReadReturns` | aesd-char-driver/main.c:80-105 | a read below the end fails, with EFAULT and nothing handed over, exactly when its copy fails; otherwise it returns and moves by what it hands over |
| `PacketLog.SeekReturns` | aesd-char-driver/main.c:213-246 | a seek fails with EFAULT exactly when its argument cannot be copied and with EINVAL exactly when it names no readable byte; a failing seek leaves the file where it was; only EINVAL leaves the mutex locked |
| `PacketLog.SeekThenFind` | aesd-char-driver/main.c:220-242 | an accepted seek lands on the byte it names, and the search finds only that packet and offset there |
| `PacketLog.FindThenSeek` | aesd-char-driver/main.c:220-242 | every readable position is where exactly one accepted seek lands, and the 32-bit arguments can express it exactly when the offset is below 2^32 |
| `PacketLog.ReadsDeliverInOrder` | aesd-char-driver/main.c:76-106 | without a commit in between, reads of any counts deliver the readable bytes in order without gap or overlap, and enough reads of at least one byte deliver all of them |
| `PacketLog.ReadAdvances` | aesd-char-driver/main.c:87-102 | a read for at least one byte below the end moves the position on, so what is left decreases |
| `PacketLog.ServedAt` | aesd-char-driver/main.c:86-93 | a read hands over bytes of the one packet it starts in |
| `WriteHistory.CutConserves` | aesd-char-driver/main.c:158-186 | cutting the history loses and reorders nothing; every packet has a newline and the rest has none |
| `WriteHistory.WritesCutTheHistory` | aesd-char-driver/main.c:122-186 | from any state without a pending newline, a sequence of writes extends the log by the cut of pending bytes and chunks |
| `WriteHistory.SplitWritesAgree` | aesd-char-driver/main.c:122-186 | a line split into writes in any way leaves the same log and pending bytes as one write |
| `WriteHistory.SplitAgreesIff` | aesd-char-driver/main.c:158-170 | a line split into writes in any way gives the log that one write gives exactly when no newline was left pending by a failed commit, or the first part is the whole line |
| `WriteHistory.CommitFailureKeepsNewline` | aesd-char-driver/main.c:158-170 | an input: a failed commit leaves a newline pending, and a split line then differs from one write |
| `WriteHistory.PacketsWritten` | aesd-char-driver/main.c:158-186 | chunks that each hold a newline become exactly the packets of the log |
| `DeviceRuns.WritesAreARun` | aesd-char-driver/main.c:113-192 | the state after a sequence of writes is one that a run of the driver reaches |
| `Receiver.Receive` | server/aesdsocket.c:169-204 | for every way in which the bytes arrive and every pattern of failing enlargements: the buffer is the terminated concatenation of the pieces received; each piece is what `recv` returns for the room that is left; no piece but the last completes the message, that is, brings a newline that no NUL hides or the seek prefix, and for bytes without NUL simply a newline; the loop ends only then, when the peer closes, or when an enlargement fails; the buffer is as large as the bytes need, and twice the old size is recorded after a failure; a line without NUL or seek prefix is received whole |
| `Receiver.StopsAtTerminator` | server/aesdsocket.c:200-203 | the string tests on the buffer hold exactly when the bytes received are a complete message |
| `Receiver.StopsIffComplete` | server/aesdsocket.c:200-203 | the string tests hold exactly when there is a newline with no NUL in front of it or the bytes start with the seek prefix; without a NUL, exactly when there is a newline or that prefix |
| `Receiver.PrefixText` | server/aesdsocket.c:38 | the bytes of the seek prefix are that text, and none of them is a NUL or a newline |
| `Receiver.TakePiece` | server/aesdsocket.c:183-186 | one `recv` puts what arrives, with a terminator, behind the bytes in the buffer, and nothing arrives exactly when the peer has closed |
| `Receiver.OnlyTheWholeLineStops` | server/aesdsocket.c:183-204 | no proper prefix of a line is a complete message |
| `Connection.ReadBack` | server/aesdsocket.c:303-305 | for every pattern of failing reads, what is sent is exactly what the reads in front of the first failing, overlong or empty one deliver: all readable bytes from the start when no read fails or is too long; it ends as failed exactly when that read fails, goes past the buffer exactly when it is longer than the buffer, and is complete exactly at the end |
| `Connection.OverrunsIff` | server/aesdsocket.c:189-195 | reading everything back goes past the buffer exactly when the size asked for exceeds it and some readable packet is longer than the buffer |
| `Connection.Serve` | server/aesdsocket.c:158-316 | how much of the stream is received, for every way in which it arrives; what was received is written to the device exactly once, after a failed enlargement too, unless the device cannot be opened; the reply is exactly what the reads deliver until one fails, so all that is readable if none does and all fit, and none if the device cannot be opened again; a line is received and stored in full; the read-back leaves the buffer only after a failed enlargement with a readable packet longer than the buffer, and cannot complete then; nothing but a stored message changes the device, except that a seek that names no readable byte leaves its mutex locked |
| `Connection.ServeSeek` | server/aesdsocket.c:210-268 | which of five ends a seek command has: not parsed, device not opened, argument not copied, refused, or answered with what the reads deliver from the byte it names, all of it unless one of them fails, through a buffer that is large enough; the device mutex stays locked exactly when the seek is refused, and not when its argument cannot be copied |
| `ServerProtocol.StepKeepsExclusive` | server/aesdsocket.c:180-308 | each step of each thread, except a second unlock that finds the mutex held, keeps mutual exclusion while the device works |
| `ServerProtocol.ExclusiveUntilTheft` | server/aesdsocket.c:236-238 | mutual exclusion holds in every state of every run until such a second unlock |
| `ServerProtocol.StepIsGood` | server/aesdsocket.c:271-308 | a thread's own step keeps its receipt, the start of its reply and what it has sent right with respect to the log |
| `ServerHistory.MessageWasReceived` | server/aesdsocket.c:183-204 | in every run, the message that a thread stores is the one that it received |
| `ServerHistory.ReceiptIff` | server/aesdsocket.c:284-286 | while the device works, a thread can store its message; a packet is committed, and counts as the thread's own, exactly when the pending bytes with the message hold a newline and no kernel call fails, and it is the pending bytes with the message behind them |
| `ServerHistory.RunStoresTheMessages` | server/aesdsocket.c:284-288 | in every run, whatever fails, log and pending bytes are what the history of the messages written makes of those at the start: no message is left out and nothing else gets in |
| `ServerHistory.MessagesInOrder` | server/aesdsocket.c:284-288 | in every run in which no write fails, all that the device took is what it held at the start followed by every message written, once and in order |
| `ServerProgress.ConnectionIsServed` | server/aesdsocket.c:180-308 | from every state with a free mutex and a working device, a connection with a message can run to its end: the device takes the message once, the reply is all that is readable then, the receipt is right, the mutex is free again and no other thread is touched |
| `ServerProgress.SeekIsAnswered` | server/aesdsocket.c:210-268 | the same for an accepted seek: the device stays as it is and the reply is the rest of the named packet and the packets behind it |
| `ServerProgress.SeekFailsCleanly` | server/aesdsocket.c:231-241 | a refused seek, or one whose argument cannot be copied, ends unanswered with the mutex free; only the refusal leaves the device mutex locked |
| `ServerProgress.OpenFailsCleanly` | server/aesdsocket.c:223-281 | a connection for which the device cannot be opened, or whose seek cannot be parsed, ends with nothing written and the mutex free |
| `ServerProgress.ReopenFailsCleanly` | server/aesdsocket.c:296-308 | a connection for which the device cannot be opened again ends unanswered with the mutex free |
| `ServerProgress.ReadFailsCleanly` | server/aesdsocket.c:303-308 | a failing read ends the reply with what was sent before, and the mutex is free |
| `ServerProgress.ReplyCompletes` | server/aesdsocket.c:303-305 | a reply under way on a working device can be read to the end and then has sent all that was left |
| `ServerProgress.EveryThreadCanFinish` | server/aesdsocket.c:180-308 | in every run without theft and empty message and with the device working, every thread has a way to its end after which the mutex is free |
| `ServerProgress.EmptyMessageStopsTheServer` | server/aesdsocket.c:180-291 | after a connection that sends nothing, no thread can take any step, unless one steals the mutex |
| `ServerRuns.GoodWhenUndisturbed` | server/aesdsocket.c:296-308 | in every run, a thread during whose reply nothing is committed has sent a prefix of one device state |
| `ServerRuns.DisturbanceNeedsTheft` | server/aesdsocket.c:180-308 | in every run, a commit during a thread's reply is made by another thread, and the mutex was stolen before |
| `ServerRuns.RunKeepsInv` | server/aesdsocket.c:158-316 | without a theft, mutual exclusion and the correctness of every thread's receipt and reply hold at the end of every run |
| `ServerRuns.RepliesAreSnapshots` | server/aesdsocket.c:271-308 | without a theft, each reply is what the device held in the state in which that reply began: all of it, or all of it from the byte that the accepted seek named; or a first part of that when a read failed |
| `ServerRuns.OnlyTheftThenCommitTears` | server/aesdsocket.c:231-241 | in every run, a reply that is no such snapshot was preceded by a theft, after which another thread committed a packet while the reply was under way |
| `ServerRuns.RefusedSeeksAreHarmless` | aesd-char-driver/main.c:220-231 | a run in which no seek argument fails to be copied has no theft, however many seeks are refused |
| `Snapshots.SnapshotIff` | server/aesdsocket.c:231-308 | in every run, thefts included, for every reply, empty ones and those of seeks too: it is place by place what the device held when it began, from the byte sought on, or a first part of that if a read failed, if and only if each read started among the bytes held then with nothing evicted since, or behind them and found the end; and then it is a snapshot |
| `Snapshots.FirstPartIff` | server/aesdsocket.c:303-305 | at every moment of a reply: what was sent so far is place by place a first part of what the device held when it began exactly when the reads so far were in place |
| `Snapshots.BeganIn` | server/aesdsocket.c:231-297 | every reply under way in any run began in a step of its own thread, at the beginning of the readable bytes or at the byte that the accepted seek named, and kept that start |
| `Snapshots.ReadStaysInFront` | aesd-char-driver/main.c:86-93 | as long as nothing is evicted, a read that starts among the bytes readable earlier does not go past them, whatever was committed since |
| `Snapshots.KnowsItsMessageInRun` | server/aesdsocket.c:284-297 | in every state of every run, a thread's committed message is the end of the packet it counts as its own |
| `ReplyPlaces.WholeIffNothingEvicted` | server/aesdsocket.c:296-308 | in every run, thefts included, a nonempty reply read to its end consists of log bytes with exactly the bytes evicted in the meantime missing between its pieces; it is, place by place, all that is readable in the state in which it ends exactly when nothing was evicted since its first piece |
| `ReplyPlaces.TrackedInRun` | server/aesdsocket.c:303-305 | the places of what a thread has sent so far are known in every state of every run |
| `ServerRuns.ReplyContainsOwnMessage` | server/aesdsocket.c:284-305 | without a theft, a reply read to its end holds the thread's own committed packet contiguously when at most nine commits came between, and the packet ends with its message |
| `Snapshots.OwnPacketInEveryRun` | server/aesdsocket.c:284-305 | in every run, thefts included: a reply holds no byte of the thread's own packet when ten or more packets followed it before the reply began; with fewer, a reply read to its end with its reads in place holds it contiguously |
| `PacketDelivery.SentWholeIff` | server/aesdsocket.c:296-308 | in every run, thefts included, for every reply read to its end and every packet in the log when it began, the thread's own among them: the packet is sent without a gap if and only if some read of the reply starts at its first byte and nothing is evicted before the packet was read to its end; and then the reply contains it contiguously |
| `PacketDelivery.ReadStaysInPacket` | aesd-char-driver/main.c:86-93 | a read that starts in a packet of the log does not go past that packet, wherever eviction has moved it |
| `Snapshots.EvictedAfterTen` | aesd-char-driver/aesd-circular-buffer.c:77-85 | a packet is evicted as a whole, exactly when ten others have followed it |
| `ServerRuns.RefusalStopsTheDevice` | aesd-char-driver/main.c:220-231 | after a refused seek the device never changes again |
| `TornReply.FaultTearsReply` | server/aesdsocket.c:231-241 | when the copy of a seek argument faults, there is a run, on a device that the driver reaches, with a completed reply that no state of the run held |
| `TornReply.FaultShiftsSeek` | server/aesdsocket.c:231-252 | when the copy of a seek argument faults, there is a run, on a device that the driver reaches, in which another thread's accepted seek is answered in full with bytes that no state of the run held from the byte sought on |
| `ThreadReaper.ThreadList.InsertHead` | server/queue.h:146-149 | the new node is in front of the others |
| `ThreadReaper.ThreadList.Remove` | server/queue.h:165-176 | exactly that node is unlinked, the others keep their order, and the walk ends |
| `ThreadReaper.ThreadList.Visit` | server/aesdsocket.c:428-435 | a node is joined, unlinked and freed exactly when its thread had finished before or is one of those that finish right then; only those get their flags set |
| `ThreadReaper.ThreadList.SweepOne` | server/aesdsocket.c:426-438 | one node of a sweep is kept or removed according to whether its thread has finished by then, and what the sweep has done so far stays accounted for |
| `ThreadReaper.ThreadList.Sweep` | server/aesdsocket.c:422-438 | for every order in which threads finish during the sweep, exactly the nodes are removed whose threads had finished when they were looked at; the others keep their order and their flags say who has finished; each removed node is joined and freed once; no freed node is looked at |
| `TailQueue.LinksDetermine` | server/queue.h:429-443 | well-formed links determine the sequence of elements |
| `TailQueue.Queue.Init` | server/queue.h:448-451 | the queue is empty and its last-address is its own first-word |
| `TailQueue.Queue.InsertHead` | server/queue.h:453-461 | links stay well formed; the element is first |
| `TailQueue.Queue.InsertBefore` | server/queue.h:463-468 | links stay well formed; the element is right in front of the given one |
| `TailQueue.Queue.InsertAfter` | server/queue.h:470-479 | links stay well formed; the element is right behind the given one |
| `TailQueue.Queue.InsertTail` | server/queue.h:481-486 | links stay well formed; the element is last |
| `TailQueue.Queue.Concat` | server/queue.h:488-495 | the elements of the second queue follow those of the first and the second is empty, also when either was empty |
| `TailQueue.Queue.Remove` | server/queue.h:497-504 | links stay well formed; exactly that element is gone |
| `TailQueue.Queue.Replace` | server/queue.h:506-515 | links stay well formed; the new element has the place of the old |
| `TailQueue.Queue.Swap` | server/queue.h:517-534 | the queues have exchanged their elements, also when either was empty |
| `TailQueue.Queue.Last` | server/queue.h:541-542 | reading the last cell as a head gives the last element, or null |
| `TailQueue.Queue.Prev` | server/queue.h:544-545 | reading the cell in front as a head gives the predecessor, or null for the first |
| `TailQueue.Queue.Forward` | server/queue.h:549-552 | the forward loop ends and visits the elements in order |
| `TailQueue.Queue.Backward` | server/queue.h:559-562 | the reverse loop ends and visits exactly the reverse |
| `SingleTailQueue.ChainDetermines` | server/queue.h:299-310 | a well-formed chain determines the sequence of elements |
| `SingleTailQueue.Queue.Init` | server/queue.h:315-318 | the queue is empty and its last-address is its own first-word |
| `SingleTailQueue.Queue.InsertHead` | server/queue.h:320-325 | the element is first and the last-address is right, also on an empty queue |
| `SingleTailQueue.Queue.InsertAfter` | server/queue.h:327-333 | the element is right behind the given one and the last-address is right |
| `SingleTailQueue.Queue.InsertTail` | server/queue.h:335-339 | the element is last |
| `SingleTailQueue.Queue.Concat` | server/queue.h:341-347 | the elements of the second queue follow those of the first and the second is empty |
| `SingleTailQueue.Queue.RemoveHead` | server/queue.h:349-354 | the first element is gone and the last-address is right |
| `SingleTailQueue.Queue.RemoveHeadUntil` | server/queue.h:356-361 | the elements up to and including the given one are gone |
| `SingleTailQueue.Queue.RemoveAfter` | server/queue.h:363-369 | the element behind the given one is gone |
| `SingleTailQueue.Queue.Remove` | server/queue.h:371-385 | exactly that element is gone; the walk ends |
| `SingleTailQueue.Queue.Swap` | server/queue.h:387-400 | the queues have exchanged their elements and last-addresses, also when either was empty |
| `SingleTailQueue.Queue.Last` | server/queue.h:406-410 | the last element, or null |
| `SingleTailQueue.Queue.Forward` | server/queue.h:415-418 | the loop ends and visits the elements in order |
| `CircleQueue.Queue.constructor` | server/queue.h:590-593 | the empty circle is the head alone |
| `CircleQueue.Queue.InsertHead` | server/queue.h:595-604 | both chains stay each other's reverse through the head; the element is first |
| `CircleQueue.Queue.InsertBefore` | server/queue.h:606-615 | both chains stay each other's reverse; the element is right in front of the given one |
| `CircleQueue.Queue.InsertAfter` | server/queue.h:617-626 | both chains stay each other's reverse; the element is right behind the given one |
| `CircleQueue.Queue.InsertTail` | server/queue.h:628-637 | both chains stay each other's reverse; the element is last |
| `CircleQueue.Queue.Remove` | server/queue.h:639-650 | both chains stay each other's reverse; exactly that element is gone |
| `CircleQueue.Queue.LoopNext` | server/queue.h:699-702 | the next element, from the last to the first |
| `CircleQueue.Queue.LoopPrev` | server/queue.h:704-707 | the previous element, from the first to the last |
| `CircleQueue.Queue.LoopStepsAreInverse` | server/queue.h:699-707 | stepping on and stepping back undo each other |
| `CircleQueue.Queue.LoopAround` | server/queue.h:699-702 | as many steps as there are elements visit each once, in rotated order, and return to the start |
| `CircleQueue.Queue.Forward` | server/queue.h:677-680 | the forward loop ends and visits the elements in order |
| `CircleQueue.Queue.Backward` | server/queue.h:688-691 | the reverse loop ends and visits exactly the reverse |

## Left out

- Sizes, sums and file positions are unbounded; the 64-bit wrap of `size_t` and `loff_t` is not modelled, only the 32-bit seek arguments are.
- ServerProgress.EveryThreadCanFinish: that a thread can get to its end is stated, not that the scheduler lets it.
- Receiver.Receive: an error return of `recv` is the same as the peer closing.
- Connection.ReadBack: what happens after a read has gone past the buffer is not described; only when it does is.
- ServerRuns.RepliesAreSnapshots: only the server's own threads use the device, a write hands over the whole message in one call, `send` delivers everything, and no reply goes past its buffer.
- Snapshots.SnapshotIff: stated by place in the log; bytes from other places may be equal by chance.
- ReplyPlaces.WholeIffNothingEvicted: stated by place in the log, and not about empty replies.
- TornReply.FaultTearsReply: unlocking a mutex that another thread holds is taken to release it.
- KernelMemory.Kmem.Krealloc: a resize to fewer bytes does not occur and is not described.
- Open, release, registration, module loading, debug output, `container_of`: plumbing.
- `fixed_size_llseek` is not part of this model; only the size passed to it is.
- `sscanf`, `accept`, `fork`, signals, syslog and the timestamp thread; the parsed seek arguments are an input.
- The early returns of a thread that never set its status flag (`server/aesdsocket.c:171-175`, `274-281`): in the reaper such a node is one that never finishes.
- LIST, SLIST_SWAP and SLIST_INSERT_AFTER, the `_SAFE` loops, `CIRCLEQ_REPLACE` and `CIRCLEQ_FOREACH_REVERSE_SAFE`: they would add easier members, or their bodies do not fit their own parameters.
- `server/aesdsocket_old.c`, `finder-app`, `examples/systemcalls`, `examples/threading` and the scripts.
