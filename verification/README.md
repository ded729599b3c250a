# The AESD character device and its socket server

A model of the character device driver (`aesd-char-driver/`), of the socket server that runs on top of it
(`server/`), and of the intrusive lists in `server/queue.h`, with proofs of what they are for.

- **The device is a command log.** Writes arrive in chunks, are collected until the collected bytes end in a
  newline, and then become a command. The newest ten commands are kept in a ring of slots and are read as if
  they were concatenated, oldest first. `CommandLog` is that log with no slots, offsets or allocations, and
  says where a run of writes is cut, what each position holds, what repeated reads deliver and where a seek
  lands. `Ring` and `CharDevice` are the driver's structures, updated in place, over `KernelMemory`, a heap of
  live allocations in which touching or freeing anything that is not live is a precondition violation.
  `DeviceState` is the device seen through failures: interrupted locks, failed allocations, copy faults and writes
  of no bytes.
- **The server runs one session per client thread.** `LineReader` reads a line through a buffer that doubles,
  `ControlLine` recognises a seek request, `LineWrites` is a line written in several device writes of which one may
  fail, `SockThread` is one whole session on the device, and `Sessions` is any number of sessions interleaved step
  by step, failing writes included, where only taking the mutex looks at who holds it. `DeviceSessions` carries such
  a run out on the driver itself.
- **The lists.** `TailQueue`, `STailQueue` and `LinkedList` are TAILQ, STAILQ and LIST; an address of a
  next-field is the datatype `Loc`, and each head carries the sequence of nodes it stands for. `ThreadList` is
  the SLIST of thread records, and `Server` the accept loop and the reaping that use it.

Results of kernel and library calls that the code cannot control are inputs (`Env`) or arbitrary choices in the
bodies of `Socket`, `UserMemory` and `World`, so each contract holds for every outcome. Numbers are unbounded
except where the code depends on their width: the doubling of an `int` buffer size and the conversion of the
seek parameters to 32-bit fields.

## What the code does that its documentation does not say

- **A seek selects by slot, not by age.** `aesd-char-driver/aesd_ioctl.h:22-29` says a seek names a write
  command; `aesd_adjust_file_offset` looks the command up in the physical slot of that number and sums physical
  sizes, while reads walk from the oldest slot. The two agree for all requests if and only if rotating the ring
  does not change its list of command sizes (`SeekSelectsTheNamedCommandIff`), in particular whenever the oldest
  command is in slot 0 (`SeekReadRoundTrip`); `ThisSeekIsRightIff` is the condition for one request.
  `WrappedSeekCounterexample` is a ring where they do not.
- **A failed resize loses the pending bytes.** The result of `krealloc_array` overwrites the only pointer to the
  old buffer before it is checked; `TornRunExample` shows a command with a byte nobody wrote.
- **A zero-length write with nothing pending** inspects the byte in front of its fresh buffer
  (`aesd-char-driver/main.c:130`). `Write` returns `BeforeBuffer` exactly then; a newline found there commits an
  empty command, anything else leaves a buffer nobody will free (`EmptyWriteExample`).
- These two are all that can go wrong with the contents: the commands are what was written, whatever memory happens
  to hold, if and only if no resize failed while bytes were pending and no zero-length write went through while none
  were (`FaithfulIff`). `NothingLeaksIff` says which writes leak a buffer.
- **The line reader's buffer size is an `int` that doubles** (`server/sock_thread.c:56`). It leaves the range
  exactly when the first 2^30 bytes have no newline; that outcome is `Overflowed`.
- **`append_to_file`** is documented to return false on failure (`server/aesdsocket.h:98-102`) but always returns
  true (`server/main.c:135-139`), so the session goes on and answers with what the device then holds. The line has
  been accepted if and only if none of the device writes it is cut into meets a failure (`AppendToFile`,
  `GoesThroughIff`); `LostLineExample` is a line that is reported as appended and is not on the device.

## Model

| member | source | states |
|---|---|---|
| CommandLog.Segmentation | aesd-char-driver/main.c:104-144 | any run of successful writes is cut into commands exactly after each write whose last byte is a newline; the rest is pending; nothing is lost, added or reordered |
| CommandLog.AcceptAllStream | aesd-char-driver/main.c:117-144 | committed commands followed by pending bytes are all bytes ever written, in lock order; pending bytes never end in a newline |
| CommandLog.ChunkingIsInvisible | aesd-char-driver/main.c:93-153 | a line split into device writes in any way leaves the log as if it had been written at once |
| CommandLog.SlotContents | aesd-char-driver/aesd-circular-buffer.c:55-70 | after any number of stores slot i holds the newest command whose number is congruent to i modulo ten, or was never used |
| CommandLog.WalkIsOldestFirst | aesd-char-driver/aesd-circular-buffer.c:35-37 | walking the slots from the oldest, modulo ten, yields the newest commands oldest first |
| CommandLog.NewestAreTheLastTen | aesd-char-driver/aesd-circular-buffer.c:55-70 | what is kept are the last ten commands, or all while there are fewer |
| CommandLog.SlotsBeforeFull | aesd-char-driver/aesd-circular-buffer.c:61-70 | until ten commands are stored the slots are the commands in order and then unused ones |
| CommandLog.SlotsAreARotation | aesd-char-driver/aesd-circular-buffer.c:61-70 | from then on the slots are the ten newest commands rotated by the oldest slot |
| CommandLog.SlotSizesSum | aesd-char-driver/main.c:155-164 | the sum over all ten physical slots is the length of the logical concatenation, rotated or partly filled |
| CommandLog.LocateInvertsPosition | aesd-char-driver/aesd-circular-buffer.c:29-45 | looking up (sizes before k) + b gives k and b |
| CommandLog.PositionInvertsLocate | aesd-char-driver/aesd-circular-buffer.c:29-45 | every offset below the total is found at the entry and byte whose position it is; none is found exactly at or beyond the total |
| CommandLog.LocatedByte | aesd-char-driver/aesd-circular-buffer.c:21-28 | the byte found is the byte of the concatenation at that offset |
| CommandLog.PieceIsContiguous | aesd-char-driver/main.c:67-85 | one read delivers the next stretch of the contents, nothing exactly at the end or for a zero count |
| CommandLog.ReadIsTrimmedToTheCommand | aesd-char-driver/main.c:70-76 | a read at byte b of command k delivers as much as is asked for of the rest of that command and nothing of the next |
| CommandLog.ReadLoop | aesd-char-driver/main.c:67-85 | repeated reads with any positive counts join to a contiguous stretch and reach the end in at most as many reads as bytes are left |
| CommandLog.SeekLandsInside | aesd-char-driver/main.c:199-213 | in every state, wrapped included, an accepted seek lands strictly below the total and a following read delivers at least one byte |
| CommandLog.LeftAfterSeek | aesd-char-driver/main.c:207-213 | from where an accepted seek lands there is as much left to read as is in the named slot from that byte on and in the slots after it |
| CommandLog.SeekSelectsTheNamedCommandIff | aesd-char-driver/main.c:182-217 | every seek selects the command and byte it names if and only if rotation leaves the list of command sizes unchanged |
| CommandLog.ThisSeekIsRightIff | aesd-char-driver/main.c:199-213 | one request for a stored byte is answered rightly if and only if the slot of that number is long enough and the slots before it add up to the commands before it; one for no stored byte if and only if that slot has no such byte |
| CommandLog.SeekReadRoundTrip | aesd-char-driver/main.c:182-217 | with the oldest command in slot 0, a seek to (x, y) succeeds exactly when command x is stored and y is below its size, and reading to the end delivers the contents from byte y of command x |
| CommandLog.WrappedSeekCounterexample | aesd-char-driver/main.c:199-211 | a wrapped ring in which a seek to an existing byte of the oldest command is refused |
| Ring.HoldsStep | aesd-char-driver/aesd-circular-buffer.c:57-69 | the in/out offset and full flag updates keep the slots those of the history; the overwritten entry is the oldest once full, unused before |
| Ring.WalkReadsNewest | aesd-char-driver/aesd-circular-buffer.c:33-37 | in every reachable buffer the slot at out_offs + k modulo ten holds the k-th newest entry |
| Ring.CircularBuffer.Init | aesd-char-driver/aesd-circular-buffer.c:75-78 | zeroing gives the empty buffer |
| Ring.CircularBuffer.AddEntry | aesd-char-driver/aesd-circular-buffer.c:55-70 | appends to the history, changes one slot, and returns null before the buffer is full and the evicted oldest pointer after |
| Ring.CircularBuffer.FindEntryOffsetForFpos | aesd-char-driver/aesd-circular-buffer.c:29-45 | finds the slot and byte of a position in the concatenation, or nothing beyond its end |
| KernelMemory.Allocator.Kzalloc | aesd-char-driver/main.c:106 | assumed contract: a zeroed buffer at an unused address, or null and nothing changed |
| KernelMemory.Allocator.KreallocArray | aesd-char-driver/main.c:111-112 | assumed contract: the buffer is replaced by one of the new size that keeps what fits, or null is returned and the old buffer stays live |
| KernelMemory.Allocator.Kfree | aesd-char-driver/main.c:139 | assumed contract: only a live buffer or null may be freed |
| DeviceState.NothingLeaksIff | aesd-char-driver/main.c:104-144 | over any run of writes with any failures, no buffer becomes unreachable if and only if no copy faulted into a fresh buffer, no held buffer failed to be resized, and no zero-length write found something other than a newline in front of its buffer |
| DeviceState.UnspoiltRun | aesd-char-driver/main.c:101-144 | without a resize failure on pending bytes or a zero-length write on none, failed writes leave no trace in the log |
| DeviceState.SpoilingCanBeSeen | aesd-char-driver/main.c:111-130 | after either of these, some memory contents make the log differ from what was written, whatever follows |
| DeviceState.FaithfulIff | aesd-char-driver/main.c:104-144 | over any run with any failures, the log is that of the successful writes for all memory contents if and only if neither happened |
| DeviceState.TornRunExample | aesd-char-driver/main.c:111-116 | a three-write run that commits a byte nobody wrote and leaks one buffer |
| DeviceState.EmptyWriteExample | aesd-char-driver/main.c:104-147 | a zero-length write to the idle device commits an empty command or leaks a buffer, as the byte in front of the buffer decides |
| CharDevice.FixedSizeLlseek | aesd-char-driver/main.c:175 | assumed contract of the kernel helper: positions 0 to size inclusive are accepted |
| CharDevice.LiveMemoryIsPartitioned | aesd-char-driver/main.c:104-144 | in every reachable state live memory is exactly the non-null slot buffers, the pending buffer and what was leaked, all distinct |
| CharDevice.Device.GrowPending | aesd-char-driver/main.c:104-113 | the pending buffer gets room for the chunk and terminator and keeps the pending bytes, or the pointer becomes null |
| CharDevice.Device.AppendChunk | aesd-char-driver/main.c:117-126 | the chunk lands behind the pending bytes, inside the allocation, terminator included |
| CharDevice.Device.PushCommand | aesd-char-driver/main.c:131-143 | the buffer moves into the ring and the buffer it pushes out, if any, is freed |
| CharDevice.Device.CommitPending | aesd-char-driver/main.c:130-144 | the log gains exactly the assembled command; exactly the oldest stored command's buffer is freed, and only when the ring was full |
| CharDevice.Device.FinishEmptyWrite | aesd-char-driver/main.c:122-144 | a write of nothing into a fresh buffer is decided by whatever byte lies in front of it; the fields stand for the next state, memory accounted for |
| CharDevice.Device.WriteLocked | aesd-char-driver/main.c:104-147 | for every chunk and every outcome of allocation and copy the fields stand for the next state of the log, memory accounted for |
| CharDevice.Device.Write | aesd-char-driver/main.c:93-153 | for every chunk, empty ones included, every outcome refines the step of the abstract device; the byte before the buffer is inspected exactly when an empty write meets no failure and no pending bytes; only success moves the file position; return codes |
| CharDevice.Device.FindEntry | aesd-char-driver/main.c:67-68 | the entry found holds, in live memory, the stored command at that position |
| CharDevice.Device.Read | aesd-char-driver/main.c:52-91 | delivers the next piece of the contents and advances by it; failures deliver nothing and move nothing |
| CharDevice.Device.GetBufferSize | aesd-char-driver/main.c:155-164 | the physical sum is the number of bytes a reader can read |
| CharDevice.Device.Llseek | aesd-char-driver/main.c:166-180 | seeking is relative to the readable size, all three origins |
| CharDevice.Device.AdjustFileOffset | aesd-char-driver/main.c:182-223 | accepts exactly an existing slot and an offset below its size, lands on the physical prefix sum, and moves nothing otherwise |
| CharDevice.Device.FreeSlots | aesd-char-driver/main.c:348-352 | every buffer a slot points to is freed once |
| CharDevice.Device.Cleanup | aesd-char-driver/main.c:333-357 | after cleanup only leaked buffers are live, and none at all exactly when no write leaked |
| CharDevice.RunWrites | aesd-char-driver/main.c:93-153 | any writes with any failures leave the driver as the run of the abstract device does |
| CharDevice.Lifetime | aesd-char-driver/main.c:93-153 | from loading to unloading, whatever was written and failed: memory is left behind exactly if some write leaked, and the log was that of the successful writes unless one of them spoilt it |
| LineReader.LineOfIsLine | server/sock_thread.c:27-70 | the line is a prefix of the stream with no newline but its last byte, and is the whole stream if it has none |
| LineReader.Socket.Recv | server/sock_thread.c:42-51 | assumed contract: a receive has room and delivers any nonempty part of what is left, nothing at close, or fails |
| LineReader.IndexOfNewline | server/sock_thread.c:52 | the first newline of a stretch |
| LineReader.ReadlineFromSocket | server/sock_thread.c:27-70 | for every splitting of the stream the line depends only on the bytes; the buffer is 1024 times a power of two and at most twice the line unless 1024; undefined exactly when 2^30 bytes have no newline |
| ControlLine.ScanInt | server/sock_thread.c:129-130 | an integer scan yields the number and stops at or before the terminator |
| ControlLine.ScanParams | server/sock_thread.c:125-130 | both parameters are terminated in place and scanned within the line |
| ControlLine.ParseCtrlLine | server/sock_thread.c:107-134 | a rejected line is unchanged byte for byte; an accepted one has exactly its first comma and its newline overwritten |
| ControlLine.ControlLineIff | server/sock_thread.c:114-124 | control lines are exactly the lines of at least 22 bytes that start with the text AESDCHAR_IOCSEEKTO:, have a comma after it and end in a newline |
| ControlLine.OrdinaryLine | server/sock_thread.c:118-120 | a line that differs from that text anywhere is an ordinary line |
| ControlLine.FirstCommaDivides | server/sock_thread.c:121-132 | a control line asks for the numbers before and after its first comma |
| ControlLine.AtoiReads | server/sock_thread.c:129-130 | a number is read after any spaces and an optional sign, up to the first byte that is no digit |
| ControlLine.AtoiOfNothing | server/sock_thread.c:129-130 | without digits the number is zero |
| ControlLine.ToUint32OfInt | server/sock_thread.c:131-132 | a negative number becomes its distance below 2^32 |
| ControlLine.AtoiInvertsDecimal | server/sock_thread.c:129-130 | scanning the decimal digits of n yields n |
| ControlLine.ParseInvertsPrint | server/sock_thread.c:96-134 | parsing a printed request yields the request, for all numbers an int can hold |
| LineWrites.RunIsOneWrite | aesd-char-driver/main.c:117-144 | a line written in any nonempty parts is on a sound device as if it had been written at once, at every point |
| LineWrites.AcceptedIffWhole | server/main.c:132-140 | the device has taken the line, by count on any device and by content on a sound one, if and only if no write of it failed |
| LineWrites.GoesThroughIff | server/main.c:132-134 | a line goes through if and only if each of the device writes it is cut into meets no failure |
| SockThread.NormalLineResponse | server/sock_thread.c:171-204 | a newline-terminated line becomes one command, and the answer is the at most ten newest commands with the line as suffix |
| SockThread.UnfinishedLineResponse | server/sock_thread.c:171-204 | a line without a newline commits nothing and is answered with what was stored before |
| SockThread.SeekSelectsResponse | server/sock_thread.c:193-204 | while the oldest command is in slot 0, the client that asks for byte y of command x gets exactly the contents from there, and nothing if there is no such byte |
| SockThread.SeekAnswerLength | server/sock_thread.c:193-204 | whatever the state of the ring, an accepted request is answered with the end of the contents, as long as the rest of the named slot and the slots after it |
| SockThread.SeekResponse | server/sock_thread.c:193-204 | a control line leaves the log alone; its answer is a suffix of the contents, empty exactly when the seek is refused |
| SockThread.WriteOut | server/main.c:132-134 | the line goes out in device writes of the sizes it is cut into, each meeting what is given, up to the first that fails; the count falls short exactly if one failed |
| SockThread.AppendToFile | server/main.c:132-140 | true is returned whatever the device writes meet; the line is accepted if and only if none of them fails, a condition on what is given; otherwise everything before the first that failed was written |
| SockThread.LostLineExample | server/main.c:135-139 | a line whose one device write is interrupted: true is returned and the device is as before |
| SockThread.ReadStream.Getline | server/sock_thread.c:79 | takes exactly the next line, through its first newline or all that is left, off what is still to be read, for any read sizes |
| SockThread.SendAll | server/sock_thread.c:80-86 | a line is sent completely and once, however few bytes each send takes |
| SockThread.SendStream | server/sock_thread.c:79-87 | everything left of the stream is sent, in order |
| SockThread.SendFile | server/sock_thread.c:72-94 | the client receives exactly the contents from the file position to the end |
| SockThread.SeekAndSend | server/sock_thread.c:187-204 | reopening, seeking and answering a control line |
| SockThread.AppendAndSend | server/sock_thread.c:171-204 | a normal line is appended and, whatever became of it, the contents sent |
| SockThread.ServeLine | server/sock_thread.c:166-214 | the locked part of a session makes the writes of its line, all of them if and only if none fails, and answers from what the device then holds |
| SockThread.ServesAsExpected | server/sock_thread.c:166-214 | on a sound device a session moves the log and answers as specified if and only if its writes go through |
| SockThread.Finish | server/sock_thread.c:225-227 | an open socket is closed, while the record may still be used, and then the flag raised |
| SockThread.SockThreadFunc | server/sock_thread.c:137-229 | a whole session acts on the first line of what the client sends, however it arrives and whatever its device writes meet, and on nothing if receiving fails; on every path it closes its socket, which must be open, and raises its flag |
| Sessions.InvStep | server/sock_thread.c:166-214 | each step of any thread, failing device writes included, keeps the serial execution invariant |
| Sessions.MutualExclusion | server/sock_thread.c:166-214 | in every reachable state at most one thread is in the locked section |
| Sessions.NoDeadlock | server/sock_thread.c:166-214 | while a thread has something left to do some thread can step, the holder if there is one |
| Sessions.StepShrinksWork | server/sock_thread.c:72-94 | each step of any thread uses up work that is bounded by what is still unwritten, unread and unsent |
| Sessions.RunsEnd | server/sock_thread.c:137-229 | no run is longer than a bound that depends only on the lines and on what the device held |
| Sessions.StuckMeansServed | server/sock_thread.c:137-229 | a run that cannot go on has finished or given up every session and left the mutex free |
| Sessions.SerialisableWhateverFails | server/sock_thread.c:166-214 | in every run of any number of sessions, whatever device writes fail, the device is what the sessions' writes make of it one session after another in mutex order; each completed session wrote its line to the end or to the write that failed |
| Sessions.EachContributesAPrefix | server/sock_thread.c:171-186 | if nothing is lost, the bytes on the device are one prefix of each normal line in mutex order, the whole of it if and only if none of its writes failed, and nothing of a control line |
| Sessions.Serialisability | server/sock_thread.c:166-214 | if no write fails, in every run of any number of sessions the device has accepted the normal lines in mutex order and then a prefix of the holder's line |
| Sessions.CommandsAreTheLines | server/sock_thread.c:171-186 | if moreover normal lines are complete, the committed commands are exactly those lines, one each, in mutex order, each with its last byte and not before |
| Sessions.FinishedSessionAnswered | server/sock_thread.c:187-204 | every finished session, whatever failed, was answered from the device as the sessions before it, one after another, and its own writes leave it |
| Sessions.FinishedSessionReceives | server/sock_thread.c:187-204 | if no write fails, every finished session was answered as if the sessions before it had run alone, each writing its line at once |
| Sessions.NormalSessionReceives | server/sock_thread.c:171-204 | a finished normal session received exactly the at most ten newest commands at its turn, its own line last |
| Sessions.SeekSessionReceives | server/sock_thread.c:193-204 | a finished control session received, from the device as it was at its turn, the contents from byte y of command x on while the oldest command is in slot 0, and else the end of the contents of the stated length |
| Sessions.SessionCanRun | server/sock_thread.c:166-214 | whenever the mutex is free, a session can run from beginning to end with any division of its line into device writes, the last of which may fail, and any sizes of reads and sends |
| Sessions.SessionCanBeGivenUp | server/sock_thread.c:147-163 | a session that fails before taking the mutex can do so at any time and leaves no trace |
| Sessions.SerialIsARun | server/sock_thread.c:166-214 | the converse of serialisability: any sessions in any order with any device writes they may make are the outcome of a run |
| DeviceSessions.Perform | server/sock_thread.c:171-204 | any step of any session, carried out by the driver on the file of the thread, leads to the phase, device and file position of the interleaved system, whatever memory holds and whatever write fails |
| DeviceSessions.TakenAsAsked | server/sock_thread.c:166-214 | if each step asked for may be taken when its turn comes, the steps taken are exactly those asked for |
| DeviceSessions.RunSessions | server/sock_thread.c:166-214 | any schedule of any number of sessions on the driver, failing writes included: each step asked for is taken if it may be, and the driver ends as the sessions' writes in mutex order make it, every client of a finished session having received the answer of its turn |
| TailQueue.Head.Init | server/queue.h:771-775 | the empty list |
| TailQueue.Head.InsertHead | server/queue.h:802-813 | prepends, on lists of any length, all pointers right |
| TailQueue.Head.InsertTail | server/queue.h:815-823 | appends through the tail address |
| TailQueue.Head.InsertAfter | server/queue.h:777-790 | inserts behind a member |
| TailQueue.InsertBefore | server/queue.h:792-800 | inserts before a member with no head at hand |
| TailQueue.Head.Remove | server/queue.h:847-863 | takes out exactly that member |
| TailQueue.Head.Concat | server/queue.h:716-725 | appends the other list and empties it |
| TailQueue.Head.Swap | server/queue.h:865-880 | exchanges the lists, empty ones included |
| TailQueue.Head.Last | server/queue.h:825-826 | reading the last entry as if it were a head yields the last node, null for the empty list |
| TailQueue.Head.Prev | server/queue.h:840-841 | reading the previous entry as if it were a head yields the predecessor, null for the first node |
| TailQueue.Head.Foreach | server/queue.h:731-734 | visits the list |
| TailQueue.Head.ForeachReverse | server/queue.h:751-754 | visits exactly the reverse and terminates |
| TailQueue.DistinctHeadsShareNothing | server/queue.h:643-651 | back pointers lead to the head, so two well-formed lists have no node in common |
| STailQueue.Head.InsertHead | server/queue.h:389-393 | prepends and keeps the tail address |
| STailQueue.Head.InsertTail | server/queue.h:395-399 | appends through the tail address |
| STailQueue.Head.InsertAfter | server/queue.h:383-387 | inserts behind a member |
| STailQueue.Head.RemoveHead | server/queue.h:428-432 | takes out the first node |
| STailQueue.Head.RemoveAfter | server/queue.h:422-426 | takes out the next node |
| STailQueue.Head.Remove | server/queue.h:408-420 | takes out any member; the walk to it ends |
| STailQueue.Head.Concat | server/queue.h:346-352 | appends the other list and empties it |
| STailQueue.Head.Swap | server/queue.h:434-445 | exchanges the lists, empty ones included |
| STailQueue.Head.Last | server/queue.h:401-404 | the node whose next-field the tail pointer addresses |
| LinkedList.Head.InsertHead | server/queue.h:586-592 | prepends |
| LinkedList.InsertAfter | server/queue.h:569-576 | inserts behind a member with no head at hand |
| LinkedList.InsertBefore | server/queue.h:578-584 | inserts before a member with no head at hand |
| LinkedList.Remove | server/queue.h:601-612 | takes out exactly that member with no head at hand |
| LinkedList.Head.Concat | server/queue.h:524-539 | appends the other list and empties it, for all combinations of empty lists |
| LinkedList.Head.Swap | server/queue.h:614-622 | exchanges the lists, empty ones included |
| LinkedList.Head.Prev | server/queue.h:596-599 | the predecessor, null exactly for the first node |
| LinkedList.DistinctHeadsShareNothing | server/queue.h:466-470 | two well-formed lists have no node in common |
| ThreadList.Head.NoRepeats | server/queue.h:276-290 | a null-terminated chain visits no node twice |
| ThreadList.Head.InsertHead | server/queue.h:271-274 | prepends |
| ThreadList.Head.Remove | server/queue.h:278-299 | takes out any member; the walk to it ends |
| Server.World.InitThread | server/main.c:212-223 | a new record for the socket, or null |
| Server.World.CloseSocket | server/sock_thread.c:225 | every close, by a client thread or by the main thread, is of a socket still open, and is accounted for |
| Server.World.StepThread | server/sock_thread.c:222-228 | a client thread closes its socket only while it is open, and raises its flag only after that |
| Server.Reap | server/main.c:230-241 | a finished thread is joined, unlinked and freed, and the records stay consistent |
| Server.Visit | server/main.c:229-242 | the successor is read before the record may go; the record is reaped exactly if its flag was seen up, and otherwise left alone |
| Server.RemoveJoinableThreads | server/main.c:225-243 | one pass, flags rising at any moment: each flag is read once, in list order; exactly the threads whose flag was seen up are joined, unlinked and freed, once each, in order; the others stay in order; those finished before are among the reaped |
| Server.RemoveAllRemainingThreads | server/main.c:245-249 | the drain ends and leaves no record and no thread's socket open, provided every thread finishes some time |
| Server.AddThread | server/main.c:318-330 | a started thread has the client's socket and its record is first in the list; none is started only if a record or a thread was refused |
| Server.ServeConnection | server/main.c:318-331 | a connection is given to a thread started for it and the threads that had finished are gone; the main thread is left with it only if a record or a thread was refused |
| Server.AcceptOne | server/main.c:300-332 | each turn asks accept once and gives a new connection to its own thread, or is left with that one if it could not be served |
| Server.RunServer | server/main.c:298-346 | for every run of connections, failures, finishes and shutdown, at exit every accepted socket was closed exactly once, every started thread joined exactly once and every record freed exactly once; every client was given to a thread started for it, but for one turned away if its record or thread was refused, and the server succeeds exactly if none was |

## Left out

- Kernel and library internals: `fixed_size_llseek`, `copy_*_user`, `kzalloc`, `krealloc_array`, `kfree`, the mutexes, stdio, sockets and threads appear as the contracts above.
- KernelMemory.Allocator: addresses and contents are a map instead of Dafny arrays, so that a pointer can go stale and an address be used again; pointers into the middle of a buffer are an address and an offset.
- ControlLine.ParseCtrlLine: `atoi` outside the range of `int` is undefined in C; the model takes the number modulo 2^32.
- CharDevice.Device.Write: sizes are unbounded, so the wrap-around of `tmp_buff_size + count` is not modelled; bytes a faulting copy did transfer lie beyond the pending size and are not modelled; reading the byte in front of a buffer is taken to yield some byte, nothing else.
- SockThread.WriteOut: after a failed device write nothing more of the line is written; what the C library might still hold back and try again on closing is not modelled.
- SockThread.SockThreadFunc: failures of reads, seeks and sends inside the locked section, the return value of `send_file` (which tests whatever `errno` holds) and `last_error` are not modelled; a thread that fails before the mutex is the step `Abort` in `Sessions`.
- Server.World.StepThread: that a client thread closes its socket and then raises its flag, each once, is what `SockThread.Finish` does at the end of every session; here it is the step the environment takes and not derived from that method.
- Server.RunServer: that `is_running` is cleared by nothing but the signal handler, and closing the listening socket.
- The mutex of the driver, released on every path, and the freeing of the line buffers of the server.
- The failing reopen (`server/sock_thread.c:187-192`), after which the code reaches `fclose` with a null file.
- Sessions: other processes that write to the device at the same time.
- Server.World: `pthread_join` of a finished thread succeeds; a connection is identified by a number of its own although the system reuses descriptors; `World` lets the other threads run once before each flag is read, which is all the main thread can observe.
- Module registration, `open` and `release`, ioctl number decoding, signal registration, `start_listening`, `daemonize`, argument parsing and logging: operating system calls with no deep property.
- `server/itimer_thread.c`, which the configured build leaves out, and the tracing and checking macros of `server/queue.h`, which expand to nothing.
- SLIST_CONCAT, SLIST_SWAP, the `_SAFE` and `_FROM` iteration macros other than the one the server uses: they would add easy members.
