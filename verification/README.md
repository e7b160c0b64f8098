# aesdchar: driver, queues and server, verified

A Dafny model of the `aesdchar` character device with its circular buffer, of the
intrusive lists in `queue.h`, and of the socket server that writes to the device and
reaps its connection threads, with proofs of what they promise.

The driver gathers written bytes into a pending entry. A newline in that entry commits
it as one command to a ring of 10 slots, and the block pushed out is freed. Readers see
the concatenation of the commands held. The proofs hold for any capacity from 1 to 255,
the range in which the `uint8_t` offsets never wrap; `Driver.InitModule` fixes 10.

| file | contents |
|---|---|
| `Machine.dfy`, `Sequences.dfy` | integer widths; sums, concatenations, suffixes |
| `Lookup.dfy` | position to (command, offset): intended answer, machine answer, when they agree |
| `CircularBuffer.dfy` | the ring, its closed form after any history, the lookup loop |
| `CommandLog.dfy` | the simple description: committed commands and a pending tail |
| `Seek.dfy` | the SEEKTO ioctl against its documentation |
| `Calls.dfy` | what one call means: its answer and what it leaves behind, for every choice of the kernel |
| `KernelHeap.dfy`, `Driver.dfy` | block ownership; every driver operation, error paths included |
| `SerialRuns.dfy` | calls of many threads one after the other: what they return, take in, lose and leak |
| `DriverThreads.dfy`, `DriverReplay.dfy` | many threads, one mutex, all interleavings; their serial runs made on the device |
| `Readers.dfy`, `DriverReaders.dfy` | what a client gets that reads while others write |
| `Client.dfy`, `DriverRuns.dfy` | reading to the end; whole lives of a device |
| `SendBuffer.dfy`, `SeekCommand.dfy`, `Server.dfy` | what `strlen` makes of the send buffer; the text request; one connection |
| `Links.dfy`, `TailQueue.dfy`, `SinglyLinkedLists.dfy`, `LinkedList.dfy` | `queue.h` on the heap |
| `Reaper.dfy` | accept loop and connection threads, all interleavings |

How the C code is represented:

- The ring and the device are classes; a block is a heap array. `KernelHeap.Kfree` may
  only be called on a live block, so each verified call site is free of double frees.
  `Device.Valid` ties the arrays to `log`, the list of committed commands and the
  pending bytes, and says which blocks are live. `Device.Now` is the value the call
  semantics of `Calls.dfy` speaks of, on one device as between threads.
- What the kernel decides is a parameter of each call: an interrupted lock, a failed
  allocation, krealloc keeping or moving a block, the number of bytes a user copy leaves.
- A pointer to a link field (`struct type **`) is the `Link` that holds the field. A
  sequence `c` lists the head and then the elements; `c[1..]` is the queue.
- `size_t`, `loff_t`, `int` and `uint32_t` conversions are written out where they occur.

Where the code falls short of what it is meant to do, the exact condition is proved:

- The lookup passes sizes through an `int`. For sizes that add up to less than 2^63 it is
  right at every position exactly when every size is at most 2^31-1 (`Lookup.WalkExact`);
  `Lookup.WalkBeyond` shows why the bound is named.
- The ioctl adds to the current position and counts slots from slot 0, although
  aesd-char-driver/aesd_ioctl.h:27 documents a zero-referenced command. On a given ring it
  does what is documented, for all commands below n, exactly when nothing was ever
  committed, or the position is 0 and the slots from 0 on have the sizes of the commands
  from the oldest on (`Seek.SeekExactOnRing`). An unrotated ring (fewer than 10 commands so
  far, or a multiple of 10) always has; every other number of commands has contents that
  do not (`Seek.SeekExact`).
- The `;` behind the FOREACH at aesd-char-driver/main.c:203 leaves `position` at 10, so
  command 10 passes the check and a size is read behind the array. In `struct aesd_dev`
  (aesd-char-driver/aesdchar.h:28-38) with 8-byte pointers that size lies on
  `circle_buff_entry.buffptr`. Taking kernel addresses to lie beyond 32 bits, the request
  succeeds, wrongly, exactly when a block is held for pending bytes
  (`Calls.SeekPastTheSlots`, `Driver.Device.AdjustFileOffset`); one unterminated packet
  gets a new device there (`Calls.SeekPastTheSlotsHappens`), and
  `DriverRuns.SeekPastTheSlotsAfter` says which runs of writes do.
- A write leaks a block exactly when it asks for memory while an idle block is held for
  zero pending bytes, or when its krealloc fails while a block is held
  (`Driver.Device.Write`). A block is idle exactly when the last request was granted with
  nothing pending and then copied nothing (`SerialRuns.IdleBecause`). So a device's life,
  whatever mix of calls it saw, ends without a live block exactly when no call of it did
  either (`DriverRuns.Lifetime`); `DriverRuns.IdleBlockLeaks` and
  `DriverRuns.FailedReallocLeaks` are runs that leak; on a new device refused calls alone
  never do (`DriverRuns.RefusalsLeakNothing`).
- After a failed krealloc the pending bytes are lost: what the next block holds in their
  place is anything (`Calls.AppendsExact`, `Calls.FailedReallocLosesBytes`).
  Statements about bytes over a run therefore ask that no krealloc failed, which a caller
  sees as a write answered by ENOMEM while bytes are pending.
- A reader misses bytes exactly when commands are pushed out between its reads, and then as
  many as were pushed out (`CommandLog.ReadsContinue`). So a client's reply is all of the
  stream from its first read on exactly when nothing was pushed out meanwhile, and the
  packet it wrote is in it for certain only when fewer than 10 commands came behind it
  before that read and none of its bytes is skipped later (`DriverReaders.ReplyUnderLoad`).
  A command can be skipped although the device holds it all the time
  (`Readers.CommandMissed`).
- A client whose data holds no newline leaves bytes behind for the next one; packets
  stay whole exactly when each holds a newline (`DriverThreads.PacketsUnmixed`,
  `CommandLog.PacketsJoined`).
- The server clears its send buffer once and sends `strlen` of it, not the number of bytes
  read. Of printable contents the client receives what was read exactly when no read is
  shorter than an earlier one and none fills the buffer (`Server.SentIsRead`,
  `SendBuffer.StaleBytesSent`).
- `strtok` keeps one saved position for all threads. A seek request is read as its packet
  says when no other thread's call comes between its two (`SeekCommand.OwnTokens`); two
  requests in turn mix up (`SeekCommand.RequestsMixed`).
- Each accept reaps at most one connection, so the list never gets shorter from one
  iteration to the next (`Reaper.ListNeverShrinks`). It reaps one whenever one on the list
  had completed (`Reaper.IterationReaps`), the newest first (`Reaper.NewestFirst`).

Assumed about the kernel: no allocation of more than 2^31-1 bytes is granted, and
`fixed_size_llseek` is as `Calls.SeekWithin` says; it is not part of this repository.

## Model

| member | source | states |
|---|---|---|
| Lookup.LocateExact | aesd-char-driver/aesd-circular-buffer.c:20-27 | a position belongs to a (piece, offset) pair exactly when the pair exists and the bytes before it number that position; so each position has one pair |
| Lookup.LocateSound | aesd-char-driver/aesd-circular-buffer.c:26-27 | there is no place exactly from the total length on |
| Lookup.WalkExact | aesd-char-driver/aesd-circular-buffer.c:32-57 | for sizes that add up to less than 2^63 the walk in machine arithmetic finds the right place for all 2^64 positions exactly when every size fits an int |
| Lookup.WalkIsLocate | aesd-char-driver/aesd-circular-buffer.c:40-57 | with int-sized pieces and a total below 2^64 the walk from any running offset is the intended lookup |
| Lookup.WalkGoesWrong | aesd-char-driver/aesd-circular-buffer.c:41-44 | any size beyond int has a position whose answer is wrong |
| Lookup.WalkBeyond | aesd-char-driver/aesd-circular-buffer.c:41-44 | a size of 2^64-1, read as -1, is looked up rightly at every position |
| Lookup.NoWrap | aesd-char-driver/aesd-circular-buffer.c:32-51 | the sum over at most 255 int-sized entries stays below 2^63 |
| CircularBuffer.AddingRecords | aesd-char-driver/aesd-circular-buffer.c:69-99 | after any run of additions the fields are exactly the closed form: in_offs is the count mod n, full from n additions on, each slot the last entry sent to it, untouched slots zero |
| CircularBuffer.SlotIsMod | aesd-char-driver/aesd-circular-buffer.c:85 | addition number j goes to slot j mod n |
| CircularBuffer.RecordsUnique | aesd-char-driver/aesd-circular-buffer.h:32-51 | the history determines every field |
| CircularBuffer.RecordsStep | aesd-char-driver/aesd-circular-buffer.c:73-88 | one addition keeps the closed form, and the slot it overwrites held nothing or the entry added n additions before |
| CircularBuffer.LogicalIsRecent | aesd-char-driver/aesd-circular-buffer.c:40-57 | read from out_offs on, the ring holds the last n entries in order |
| CircularBuffer.WalkOrder | aesd-char-driver/aesd-circular-buffer.c:54-57 | stepping modulo n visits each held entry once, oldest first, and meets in_offs only at the end |
| CircularBuffer.RotationKeepsSize | aesd-char-driver/main.c:295-298 | summing all slots in array order gives the length of the rotated contents |
| CircularBuffer.CircularBuffer.constructor | aesd-char-driver/main.c:345-349 | a new ring is valid, empty, of the given capacity |
| CircularBuffer.CircularBuffer.Init | aesd-char-driver/aesd-circular-buffer.c:96-99 | from any contents, an empty ring with zero slots |
| CircularBuffer.CircularBuffer.AddEntry | aesd-char-driver/aesd-circular-buffer.c:69-91 | the history grows by the entry; the pointer returned is NULL while fewer than n were added, then that of the entry added n additions before |
| CircularBuffer.CircularBuffer.FindEntryOffset | aesd-char-driver/aesd-circular-buffer.c:29-60 | the slot and offset are those of the walk over the sizes of the last n entries, and the slot holds that entry |
| CircularBuffer.CircularBuffer.ScanFrom | aesd-char-driver/aesd-circular-buffer.c:40-59 | the do-while loop computes that walk and terminates |
| CircularBuffer.CircularBuffer.TotalSize | aesd-char-driver/main.c:295-298 | the FOREACH loop computes the length of the visible file |
| CommandLog.StreamConservation | aesd-char-driver/main.c:158-176 | after any writes, evicted, visible and pending bytes end to end are the bytes written |
| CommandLog.AppendAllConserves | aesd-char-driver/main.c:158-176 | a run of writes extends the stream by exactly its bytes |
| CommandLog.SplitWrite | aesd-char-driver/main.c:138-176 | writing a then b equals writing a followed by b in one call exactly when a holds no newline or b is empty |
| CommandLog.SplitMany | aesd-char-driver/main.c:138-176 | any splitting of a write leaves the same device exactly when nothing follows the piece with a newline |
| CommandLog.PacketsStayWhole | aesd-char-driver/main.c:163-176 | from no pending bytes, the commands added are the packets exactly when every packet holds a newline |
| CommandLog.PacketsJoined | aesd-char-driver/main.c:163-176 | a packet without a newline and the next one become a single command |
| CommandLog.ReadIsSlice | aesd-char-driver/main.c:84-99 | a read is a slice of the visible file at the position, empty only for no count or at the end |
| CommandLog.ReadFromCommand | aesd-char-driver/main.c:89-99 | how much: from a byte of a command on, the count asked for or what is left of that command |
| CommandLog.ReadRunComplete | aesd-char-driver/main.c:84-99 | reads with any positive counts return the bytes from the position on, gapless; as many reads as bytes return all |
| CommandLog.ReadRunEnds | aesd-char-driver/main.c:84-87 | after that every read returns nothing |
| CommandLog.ReadIsStreamSlice | aesd-char-driver/main.c:84-99 | a read is the slice of all committed bytes at evicted count plus position |
| CommandLog.LostExact | aesd-char-driver/main.c:163-176 | bytes are pushed out of the visible file on the way to a later state exactly when commands were added and there are then more than n |
| CommandLog.ReadIsLaterStreamSlice | aesd-char-driver/main.c:84-99 | a read stays a slice of the stream at the same place in every later state |
| CommandLog.ReadsContinue | aesd-char-driver/main.c:84-99 | two reads with writes between them are slices of one stream, the second starting behind the first and behind the bytes pushed out in between; none are pushed out exactly when the writes add no command or all fit |
| Calls.AfterWriteAppends | aesd-char-driver/main.c:138-176 | from a device that lost nothing, a write under any choice of the kernel appends the bytes taken in; it loses bytes exactly when krealloc fails |
| Calls.AppendsExact | aesd-char-driver/main.c:150-161 | a granted write appends to the pending bytes, whatever its block may hold, exactly when no krealloc had failed |
| Calls.FailedReallocLosesBytes | aesd-char-driver/main.c:150-156 | a run of three writes whose one command is not made of the bytes written |
| Calls.IdleAfterWrite | aesd-char-driver/main.c:139-176 | a block is held for no bytes exactly after a granted request that copied nothing while nothing was pending, until the next request |
| Calls.SeekThenRead | aesd-char-driver/main.c:295-304 | from any position a seek succeeds exactly for targets inside the file and for SEEK_CUR by 0, and a read there returns bytes exactly before the end |
| Calls.SeekAnswered | aesd-char-driver/main.c:295-304 | what a seek answers for SEEK_SET, SEEK_CUR, SEEK_END and any other whence, from every position |
| Calls.WriteAnswered | aesd-char-driver/main.c:107-182 | an empty write returns 0 before anything else; otherwise interrupted, refused or the number of bytes copied |
| Calls.ReadAnswered | aesd-char-driver/main.c:83-99 | an uninterrupted read returns the bytes found less those not copied and moves the position by their number |
| Calls.Interrupted | aesd-char-driver/main.c:73-76 | an interrupted wait answers ERESTARTSYS and changes nothing |
| Calls.SeekPastTheSlots | aesd-char-driver/main.c:203-205 | there is no command n, and the request for it succeeds exactly while a block is held for pending bytes and the wait is not interrupted |
| Calls.SeekPastTheSlotsHappens | aesd-char-driver/main.c:203-205 | after a write of one unterminated byte to a new device, command 10, byte 7 is accepted |
| KernelHeap.KernelHeap.Krealloc | aesd-char-driver/main.c:150 | keeps or replaces the block, contents preserved; on failure the old block stays live |
| KernelHeap.KernelHeap.Kfree | aesd-char-driver/main.c:168-171 | only a live block can be freed, NULL is ignored |
| Driver.ReplaceEntry | aesd-char-driver/main.c:141-150 | replacing one pointer by an unshared one keeps all pointers distinct and changes the owned blocks by just these two |
| Driver.MoveEntry | aesd-char-driver/main.c:166-175 | moving the pending entry into a slot gives up only the block of that slot |
| Driver.ReserveAccounts | aesd-char-driver/main.c:138-156 | a request for memory keeps the account of live, owned and leaked blocks exact, whichever way it goes |
| Driver.CommitAccounts | aesd-char-driver/main.c:163-176 | committing and freeing the block pushed out keeps it exact and leaks nothing |
| Driver.Device.constructor | aesd-char-driver/main.c:345-352 | an empty device owning nothing |
| Driver.Device.Obtain | aesd-char-driver/main.c:139-156 | memory for the pending bytes and the new ones, old contents kept |
| Driver.Device.Reserve | aesd-char-driver/main.c:138-156 | ownership stays exact; the old block leaks just when it was held for no bytes or the request failed |
| Driver.Device.CopyIn | aesd-char-driver/main.c:158-161 | the bytes follow the pending ones; visible commands are untouched |
| Driver.Device.Commit | aesd-char-driver/main.c:163-176 | the pending bytes become the newest command, the block pushed out is freed once, nothing leaks |
| Driver.Device.WriteLocked | aesd-char-driver/main.c:138-176 | under the mutex: memory, copy and commit; what is then held, taken in and leaked |
| Driver.Device.Write | aesd-char-driver/main.c:107-182 | the value returned on every path, 0 for an empty write included; what is then held and taken in; exact leak condition; ownership exact |
| Driver.Device.SizesAreLengths | aesd-char-driver/aesd-circular-buffer.h:29 | recorded sizes are the lengths of the visible commands, positive and int-sized |
| Driver.Device.FindByte | aesd-char-driver/main.c:83-87 | lookup finds the command and offset of a position in the visible file, NULL exactly from its end on, and the slot's block holds that command |
| Driver.Device.Choose | aesd-char-driver/main.c:83-95 | the block, start and length to copy: the bytes of a read of the visible commands, less what the copy leaves |
| Driver.Device.Fetch | aesd-char-driver/main.c:83-98 | the user buffer starts with the bytes of a read of the visible commands, less what the copy left, and is otherwise as it was |
| Driver.Device.ReadLocked | aesd-char-driver/main.c:83-102 | under the mutex: the bytes of the visible file at the position, less what the copy left, and the position moved by their number |
| Driver.Device.Read | aesd-char-driver/main.c:56-105 | error results, interruption included; otherwise the user buffer gets the bytes of the visible file at the position, which moves on by their number |
| Driver.Device.Llseek | aesd-char-driver/main.c:274-305 | goes to the target asked for exactly when it lies within 0 and the length of the visible file, case by case for each whence; else refused with the position kept |
| Driver.Device.AdjustFileOffset | aesd-char-driver/main.c:185-228 | below n: accepted exactly when the offset is below the size of that slot, and the position moves by the sizes of the slots before it and the offset; above n: refused; n itself: accepted exactly while a pending block is held |
| Driver.Device.AdvanceBySlots | aesd-char-driver/main.c:216-219 | the loop adds the sizes of the first slots to the position, wrapping as loff_t |
| Driver.Device.SizesOfRing | aesd-char-driver/main.c:205-218 | the slots are those of a ring to which commands of the committed lengths were added |
| Driver.Device.SlotsAreOf | aesd-char-driver/main.c:205-218 | the committed commands alone determine the size in every slot |
| Driver.Device.InPlaceUnrotated | aesd-char-driver/main.c:205-218 | an unrotated device has the sizes of its commands in the slots from 0 on |
| Driver.Device.SeekLands | aesd-char-driver/main.c:205-222 | with the sizes in place a seek from 0 succeeds exactly for existing bytes, and lookup at the result gives back command and offset |
| Driver.Device.Cleanup | aesd-char-driver/main.c:364-382 | every owned block is freed once; live afterwards are only leaked blocks |
| Driver.InitModule | aesd-char-driver/main.c:334-352 | the device the module sets up is empty, owns nothing and has 10 slots |
| Seek.SeekExactOnRing | aesd-char-driver/main.c:203-222 | on a given ring the ioctl does what is documented for all commands below n exactly when none was committed, or the position is 0 and the slots from 0 on have the sizes of the commands |
| Seek.UnrotatedInPlace | aesd-char-driver/main.c:205-218 | with fewer than n additions, or a multiple of n, the sizes are in place |
| Seek.RotatedOutOfPlace | aesd-char-driver/main.c:205-218 | for any other number of additions there are contents for which they are not |
| Seek.SeekExact | aesd-char-driver/main.c:203-222 | over all contents of a given number of commands: exactly when there are none, or the position is 0 and the number is below n or a multiple of n |
| Seek.AgreesInPlace | aesd-char-driver/main.c:205-222 | with the sizes in place every request below n from 0 ends where documented |
| Seek.DisagreesOutOfPlace | aesd-char-driver/main.c:205-218 | where slot and command of one number differ in size some offset goes wrong, from any position |
| Seek.SeekThenLocate | aesd-char-driver/aesd_ioctl.h:24-32 | documented seek and lookup are inverse |
| SerialRuns.ReplayBodies | aesd-char-driver/main.c:107-182 | with no krealloc failed, calls one after the other, refused and partial ones included, leave the log of the bytes each write took in, and nothing else |
| SerialRuns.CallsDetermine | aesd-char-driver/main.c:56-228 | the calls in their order determine whether bytes are lost and blocks leak; with no krealloc failed also every answer |
| SerialRuns.IdleBecause | aesd-char-driver/main.c:139-161 | an idle block is held exactly when the last request was granted with nothing pending and copied nothing |
| DriverThreads.Linearizable | aesd-char-driver/main.c:56-228 | every interleaving of writes, reads, seeks and ioctls, refused and partial ones included, equals the serial run of the finished calls, each thread's in its order, answers included |
| DriverThreads.MutualExclusion | aesd-char-driver/main.c:132-179 | never two threads inside their calls |
| DriverThreads.NoDeadlock | aesd-char-driver/main.c:132-181 | the holder of the mutex can always take a step; with the mutex free, so can every thread with calls left |
| DriverThreads.RunsAreBounded | aesd-char-driver/main.c:132-181 | every step uses up one of finitely many, at most five for each call |
| DriverThreads.StuckMeansFinished | aesd-char-driver/main.c:132-181 | a run that cannot go on has made all calls of all threads and left the mutex free |
| DriverThreads.InvStep | aesd-char-driver/main.c:132-181 | each single step under the mutex keeps the invariant |
| DriverThreads.NoByteLost | aesd-char-driver/main.c:132-181 | with no krealloc failed, in every reachable state, inside the critical section too, evicted, visible and pending bytes are those the finished writes took in, in call order, and those the write under way has copied in |
| DriverThreads.PacketsUnmixed | aesd-char-driver/main.c:132-181 | with the mutex free and no krealloc failed the commands are the packets taken in and nothing is pending exactly when every one held a newline |
| DriverThreads.PacketOrder | server/aesdsocket.c:347-356 | picking out of the common order what one client put in gives its packets in its order, once its writes go through whole |
| DriverThreads.ReadsAreStreamSlices | aesd-char-driver/main.c:73-102 | every read under any interleaving is a slice of the committed stream at evicted count plus position |
| DriverReplay.Make | aesd-char-driver/main.c:56-305 | each of the four calls on the device gives the answer, contents and position that the call semantics says |
| DriverReplay.ReplayOnDevice | aesd-char-driver/main.c:56-305 | any calls on any open files, one after the other: every answer and the final device are those of the serial run, and a block leaks exactly when a call dropped an idle block or failed in krealloc |
| DriverReplay.Reenact | aesd-char-driver/main.c:56-305 | a concurrent run in which no krealloc failed, made again on one device in the order in which its calls finished: same answers, contents and positions |
| Readers.DeliveredOrSkipped | aesd-char-driver/main.c:84-99 | between its first and last place a reader gets each byte of the stream or skips it, never both |
| Readers.WholeUnlessSkipped | aesd-char-driver/main.c:84-99 | reading to the end gives all of the stream from the first read on exactly when no byte is skipped |
| Readers.WholeUnlessLost | aesd-char-driver/main.c:84-99 | on a changing device that is so exactly when nothing is pushed out between the first read and the last |
| Readers.CommandFares | aesd-char-driver/main.c:84-99 | each byte of a command is in the reply exactly when the device held the command at the first read and the byte is not skipped; unskipped, the command stands in the reply in one piece |
| Readers.CommandMissed | aesd-char-driver/main.c:84-99 | a command that is held throughout the reads and yet missing from what they return |
| DriverReaders.SecondRead | aesd-char-driver/main.c:73-102 | whatever other threads do, the second of two successive reads of a thread starts behind the first and the bytes pushed out in between |
| DriverReaders.ReplyExact | server/aesdsocket.c:375-382 | a client that reads to the end while others write gets the whole stream from its first read on exactly when nothing was pushed out since |
| DriverReaders.OwnPacket | server/aesdsocket.c:347-382 | the command a client's packet completed: each of its bytes is in the client's reply exactly when fewer than n commands came behind it before the first read and the byte is not skipped |
| DriverReaders.ReplyUnderLoad | server/aesdsocket.c:347-382 | both, for any interleaving of threads |
| Client.ReadOnce | aesd-char-driver/main.c:73-102 | a read delivers the next bytes ahead of the position; undisturbed, nothing only at the end |
| Client.ReadToEnd | aesd-char-driver/main.c:73-102 | reads with any positive counts end with a prefix of what lies ahead, all of it when no read is disturbed |
| SendBuffer.SentExact | server/aesdsocket.c:370-382 | a buffer cleared once and sent as a C string after each read passes on what was read exactly when no read is shorter than an earlier one and none fills the buffer |
| SendBuffer.StaleBytesSent | server/aesdsocket.c:370-382 | a command behind a longer one goes out with the end of the longer one |
| SendBuffer.SentOne | server/aesdsocket.c:370-382 | one send passes on the bytes just read, and nothing more exactly when no longer read came before |
| SendBuffer.SentCut | server/aesdsocket.c:375-382 | of bytes with a NUL among them nothing from the first NUL on is sent |
| Server.SendFile | server/aesdsocket.c:370-382 | the loop reads a prefix of what lies ahead, all of it undisturbed, and sends what the buffer holds as C strings; short commands come one a read |
| Server.SentIsRead | server/aesdsocket.c:370-382 | the client receives the printable bytes read exactly when no read is shorter than an earlier one and none fills the buffer |
| Server.ServeSeek | server/aesdsocket.c:299-335 | a request is refused exactly for a bad text or seek, else answered from the target on |
| Server.ServeWrite | server/aesdsocket.c:336-382 | the server exits exactly on a refused write; otherwise the packet is appended and the visible file is read back |
| Server.ServePacket | server/aesdsocket.c:290-392 | one connection end to end, both kinds of packet |
| Server.RequestReachesByte | server/aesdsocket.c:299-335 | with the sizes in place a printed request leads to the byte it names, and from there to the end of the file |
| Server.AskForByte | server/aesdsocket.c:299-382 | the printed request for byte y of command x is answered by the rest of that command and all later ones, and refused exactly when there is no such byte or the wait is interrupted |
| Server.EchoOf | server/aesdsocket.c:347-382 | a terminated packet completes the pending bytes to a command, and the visible file ends with it |
| Server.EchoPacket | server/aesdsocket.c:347-382 | whatever is pending, the command a terminated packet completes is read back at the end of the reply; of short printable commands the client receives what was read exactly when they never get shorter and none fills the buffer |
| SeekCommand.RequestRoundTrip | server/aesdsocket.c:299-321 | a printed request parses back to its numbers exactly when both fit 32 bits |
| SeekCommand.ParseRequest | server/aesdsocket.c:312-321 | for all sizes, both numbers clamped to 64 bits and cut to 32 |
| SeekCommand.ParseFields | server/aesdsocket.c:305-321 | two fields at a comma are converted separately |
| SeekCommand.DigitsNext | server/aesdsocket.c:312-321 | a further digit takes the number read times ten |
| SeekCommand.StrtoulValue | server/aesdsocket.c:312-321 | white space, sign, digits, then something else: the value of the digits, clamped to 64 bits, or taken from 2^64 behind a minus sign |
| SeekCommand.StrtoulNone | server/aesdsocket.c:312-321 | 0 where no number begins |
| SeekCommand.ParseDigits | server/aesdsocket.c:299-321 | a packet with two digit strings at a comma gives their values, cut to 32 bits, whatever comma-free text follows |
| SeekCommand.ParseLiteral | server/aesdsocket.c:299-321 | the request for command 0, byte 12, character by character |
| SeekCommand.ParseAccepts | server/aesdsocket.c:305-319 | a request is accepted exactly when a non-comma, a comma and a non-comma follow one another in it |
| SeekCommand.OwnTokens | server/aesdsocket.c:305-321 | with no strtok call of another thread between its two, a thread reads the request in its own packet |
| SeekCommand.TokensInTurn | server/aesdsocket.c:305-321 | of two threads calling in turn, the first gets its second token from the other's text |
| SeekCommand.RequestsMixed | server/aesdsocket.c:305-321 | two requests that do so: the first goes to the second's offset, the second is refused |
| DriverRuns.SeekPastTheSlotsAfter | aesd-char-driver/main.c:203-205 | after any run from a new device in which no krealloc failed, the request for command n succeeds exactly when unterminated bytes or an idle block are left |
| DriverRuns.IdleBlockLeaks | aesd-char-driver/main.c:141 | a run that leaks: a write that copies nothing, then another |
| DriverRuns.FailedReallocLeaks | aesd-char-driver/main.c:150 | a run that leaks: pending bytes, then no memory for more |
| DriverRuns.RefusalsLeakNothing | aesd-char-driver/main.c:132-156 | interrupted calls and failed kmallocs leave a new device as it was and leak nothing |
| DriverRuns.MakeAll | aesd-char-driver/main.c:56-305 | any calls on any open files: while no krealloc fails the calls alone say what is left, and nothing leaks exactly when no call dropped an idle block or failed in krealloc |
| DriverRuns.RunThenRead | aesd-char-driver/main.c:56-305 | then reading with any positive counts from any position gives the rest of the last n commands and ends at the end |
| DriverRuns.Lifetime | aesd-char-driver/main.c:334-385 | set up, any calls by any number of programs, read back, tear down: right bytes, and no block live at the end exactly when no call dropped an idle block or failed in krealloc |
| TailQueue.Init | server/queue.h:690-694 | an empty queue whose last pointer names its own first field |
| TailQueue.InsertHead | server/queue.h:721-732 | the element becomes the first; ring kept |
| TailQueue.InsertTail | server/queue.h:734-742 | the element becomes the last; ring kept |
| TailQueue.InsertAfter | server/queue.h:696-709 | the element follows the given one; ring kept |
| TailQueue.InsertBefore | server/queue.h:711-719 | the element precedes the given one, without the head; ring kept |
| TailQueue.Remove | server/queue.h:752-768 | exactly that element leaves; its own links stay |
| TailQueue.Concat | server/queue.h:635-644 | the second queue's elements follow the first's; the second is empty and disjoint |
| TailQueue.Swap | server/queue.h:770-785 | the heads exchange their elements, empty queues included |
| TailQueue.Last | server/queue.h:744-745 | two dereferences give the last element, or NULL when empty |
| TailQueue.Prev | server/queue.h:749-750 | two dereferences give the predecessor, NULL exactly for the first element |
| TailQueue.Foreach | server/queue.h:650-653 | visits all elements in order and ends |
| TailQueue.ForeachReverse | server/queue.h:670-673 | visits all elements in reverse order and ends |
| TailQueue.SafeRound | server/queue.h:660-663 | removing the current element does not lose the next |
| TailQueue.RemoveDuringForeachSafe | server/queue.h:660-663 | removing any elements while iterating visits all and keeps the others in order |
| SinglyLinkedTailQueue.InsertHead | server/queue.h:351-355 | as sequence; the last pointer follows when the queue was empty |
| SinglyLinkedTailQueue.InsertTail | server/queue.h:357-361 | as sequence; the last pointer names the new element |
| SinglyLinkedTailQueue.InsertAfter | server/queue.h:345-349 | as sequence; the last pointer follows behind the last element |
| SinglyLinkedTailQueue.RemoveHead | server/queue.h:390-394 | the first leaves; an emptied queue points at its own head |
| SinglyLinkedTailQueue.RemoveAfter | server/queue.h:384-388 | the next element leaves; the last pointer follows |
| SinglyLinkedTailQueue.Remove | server/queue.h:370-382 | the walk ends and exactly the element leaves |
| SinglyLinkedTailQueue.Concat | server/queue.h:308-314 | as sequences; the second is empty |
| SinglyLinkedTailQueue.Swap | server/queue.h:396-407 | contents exchanged, last pointers repaired for emptied queues |
| SinglyLinkedTailQueue.Last | server/queue.h:363-366 | the last element or NULL |
| SinglyLinkedList.InsertHead | server/queue.h:241-244 | as sequence |
| SinglyLinkedList.InsertAfter | server/queue.h:236-239 | as sequence |
| SinglyLinkedList.Remove | server/queue.h:248-260 | the walk ends and exactly the element leaves |
| SinglyLinkedList.Concat | server/queue.h:190-201 | as sequences; the second is empty |
| SinglyLinkedList.Swap | server/queue.h:271-275 | contents exchanged |
| SinglyLinkedList.Foreach | server/queue.h:207-210 | visits all elements in order and ends |
| LinkedList.BackNamesElement | server/queue.h:457-460 | the list is intact exactly when every le_prev points at a link of the list that names the element |
| LinkedList.InsertAfter | server/queue.h:512-519 | as sequence; back pointers kept |
| LinkedList.InsertBefore | server/queue.h:521-527 | as sequence, without the head |
| LinkedList.InsertHead | server/queue.h:529-535 | as sequence; back pointers kept |
| LinkedList.Remove | server/queue.h:544-555 | exactly the element leaves, without head or walk |
| LinkedList.Prev | server/queue.h:539-542 | the predecessor, NULL exactly for the first |
| LinkedList.Concat | server/queue.h:467-482 | as sequences; the second is empty |
| LinkedList.Swap | server/queue.h:557-565 | contents exchanged, first elements pointed back at their new heads |
| Reaper.ListIsAcceptedMinusReaped | server/aesdsocket.c:592-619 | between iterations the list is the accepted connections not yet freed, each once |
| Reaper.JoinedThenFreedOnce | server/aesdsocket.c:613-617 | no double join, no double free, and freeing only after flag, return and join |
| Reaper.NoUseAfterFree | server/aesdsocket.c:251-616 | no step of the loop or of a thread touches a freed node: inserting, preparing, spawning, the walks over the list, joining, and a thread's reads and its flag |
| Reaper.JoinsOnlyCompleted | server/aesdsocket.c:612-614 | only threads that have set their flag and were never joined are joined |
| Reaper.NoDeadlock | server/aesdsocket.c:612-619 | some step is always possible; a thread waited for in a join can go on |
| Reaper.ListNeverShrinks | server/aesdsocket.c:556-624 | each iteration changes the length by 1 or 0, so it never falls |
| Reaper.FlagSeen | server/aesdsocket.c:613 | while the loop scans, a flag on the list reads true exactly when its thread has set it |
| Reaper.IterationEnds | server/aesdsocket.c:612-619 | from its scan on an iteration ends: the steps left to it and to the threads are bounded |
| Reaper.ReapsOne | server/aesdsocket.c:612-619 | a scan ends with the first complete connection it sees taken off, joined and freed, and no other; with none only when none had completed as it began |
| Reaper.ScanBegins | server/aesdsocket.c:592-612 | every iteration comes to a scan from the head, the new node first |
| Reaper.IterationReaps | server/aesdsocket.c:576-624 | from accept to accept exactly one connection is reaped if any thread had completed at the first, and none unless one has by the second |
| Reaper.NewestFirst | server/aesdsocket.c:595 | the list runs from the newest connection to the oldest, so the newest completed one is reaped |
| Reaper.InsertAndReap | server/aesdsocket.c:592-619 | one iteration on the heap: the node goes in front, the first completed one goes out |

## Left out

- Sockets, daemonizing, signal handling, syslog, the timestamp thread and cdev registration: operating system plumbing.
- Assembling a packet from recv calls (server/aesdsocket.c:249-288): the model starts with a complete packet without NUL bytes.
- Decoding the ioctl number and `access_ok`: bit macros; and the NULL tests on `filp` that come after its first use.
- Fault on a bad user address: a user copy may leave bytes, but a buffer is either NULL or has room for `count` bytes.
- Driver.Device.AdjustFileOffset: where the pending block lies is a parameter beyond 32 bits; other layouts of `struct aesd_dev` are not covered.
- Server.ServeSeek: the two `strtok` calls of a request run without another thread's in between; see SeekCommand.OwnTokens.
- Reaper.NoUseAfterFree: a node is named by its connection's number, so reuse of an address by a later malloc does not show.
- The kernel's restart of interrupted system calls: an interrupted call simply returns.
- The head macros for C++, `_FOREACH_FROM` variants and `QUEUE_MACRO_DEBUG` checks: the same loops from another start, or compiled away.
- finder-app, the systemcalls, threading and autotest examples and the shell scripts: thin wrappers.
