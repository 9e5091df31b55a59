# A verified model of the aesdchar device, its socket server and their queues

The repository holds a Linux character device that keeps the newest ten lines
written to it, a multi-threaded socket server that stores every line a client
sends in that device and answers with the device's contents, and the BSD queue
macros. This project models the three together and proves what they promise.

- `Lines.dfy`: byte streams cut into newline-terminated lines, and the proof
  that there is only one way to cut them.
- `KernelHeap.dfy`, `CircularBuffer.dfy`: the allocator, with addresses that are
  never reused, and the ring of ten slots with its `uint8` offsets and counter.
- `DeviceSpec.dfy`: the device as a simple object (all lines ever accepted, of
  which the newest ten are readable, and the unterminated tail), its writes with
  every way they can fail, its reads and seeks, and the laws of all of these.
- `DeviceMemory.dfy`, `AesdDevice.dfy`: who holds which block, and the file
  operations of `main.c` as methods proved to do what `DeviceSpec` says.
- `ServerSpec.dfy`, `SocketServer.dfy`: what a chunk handled under `file_lock`
  does, what any interleaving of chunks adds up to, and the server's loops as
  methods proved to do that on a real device object and real socket objects.
- `TailQueue.dfy`, `Connections.dfy`: the TAILQ macros on a heap of link cells,
  and the SLIST of connections with the pass that collects finished threads.

How the source is read:

- Bytes are `char`; no property depends on how many values a byte has. Lengths
  and file positions are unbounded; a negative file position (a stored error
  code) is converted to `size_t` explicitly, and the lookup counter's wrap from
  0 to 255 is written out.
- Failing kernel calls are parameters: `Faults` says whether `kmalloc`,
  `copy_from_user` or the mutex fails and which call of `kmemdup` does.
  `fixed_size_llseek` and `sscanf` are function parameters: every result holds
  for any such function (the server needs `SEEK_SET` 0 to give 0). `sscanf` is
  handed the whole rest of the buffer, as in the source, not just one line.
- A socket is a script of how many bytes each write takes, possibly none; a
  negative number is an error.
- The state that `file_lock` protects is the device's history and the position
  of the one open file. The server opens whatever device there is at position 0.
- Writers are serialised, as `file_lock` does: `partial` is touched outside the
  device mutex (main.c:104-130).
- The collector saves the next pointer before it frees an element. The source
  reads it from the freed element (aesdsocket.c:278-283); the model reports
  exactly when that happens.
- Results that go against what one might expect: a failed write is not atomic
  (`AtomicWhateverFails` gives the condition a caller can check); the header
  block of every line is never freed (main.c:141, `Lifetime` counts them); a
  failing `copy_from_user` in write returns `-ENOMEM`, the assignment of
  `-EFAULT` being unreachable (main.c:120-124); a seek accepts an offset equal to
  the line's length, and offset 0 of a command that is not stored (main.c:225, `SeekExact`);
  a tagged line that does not parse gets an empty reply exactly when some line
  has been answered before or the device was opened empty, and the whole window
  otherwise (`UnparsedReply`); a line split over two socket reads loses its head
  (`SplitLineLosesItsHead`; `ChunkSeam` has the exact condition for any number
  of reads); a failed send returns with `file_lock` held
  (aesdsocket.c:197-202).

## Model

| member | source | states |
|---|---|---|
| Lines.IndexOf | aesd-char-driver/main.c:138 | the search returns the first occurrence, or the length when there is none |
| Lines.SplitSound | aesd-char-driver/main.c:138-167 | cutting a stream loses no byte; every piece is a line with its only newline last, and the tail has none |
| Lines.SplitUnique | aesd-char-driver/main.c:138-167 | it is the only way to cut a stream into such pieces |
| Lines.SplitAppend | aesd-char-driver/main.c:104-120 | cutting two writes with the tail carried over is cutting their concatenation |
| Lines.SplitSeams | server/aesdsocket.c:207-208 | cutting any number of chunks separately gives the lines of the whole exactly when every chunk with an unfinished line is followed only by chunks that complete none |
| KernelHeap.Heap.Kmalloc | aesd-char-driver/main.c:106 | a fresh block of that size, or NULL and no change |
| KernelHeap.Heap.Kmemdup | aesd-char-driver/main.c:142-161 | a fresh block with that content, or NULL and no change |
| KernelHeap.Heap.CopyInto | aesd-char-driver/main.c:116-120 | copies stay inside a live block and change nothing else |
| KernelHeap.Heap.Kfree | aesd-char-driver/main.c:126-130 | only live blocks are freed, each address at most once |
| KernelHeap.Heap.Accounts | aesd-char-driver/main.c:126-177 | when only the blocks in a set are still allocated, every other address ever handed out was freed exactly once, and the numbers agree |
| CircularBuffer.Wrap | aesd-char-driver/aesd-circular-buffer.c:43-61 | offset arithmetic modulo 10 |
| CircularBuffer.Ring.constructor | aesd-char-driver/aesd-circular-buffer.c:72-74 | an empty ring |
| CircularBuffer.Ring.AddEntry | aesd-char-driver/aesd-circular-buffer.c:55-67 | the ring holds the newest ten entries in order, and hands back the payload of exactly the overwritten one |
| CircularBuffer.Ring.FindEntryOffset | aesd-char-driver/aesd-circular-buffer.c:32-46 | the slot and byte offset of a position, NULL exactly from the total size on, with at most ten rounds and no underflow although the counter wraps |
| CircularBuffer.RotatedSum | aesd-char-driver/main.c:192-195 | slots that read as the stored entries from some offset on have their total size |
| CircularBuffer.Ring.PhysicalSum | aesd-char-driver/main.c:192-195 | adding the ten sizes in slot order gives the size of the stored entries, for every rotation and fill level |
| DeviceSpec.WriteReturns | aesd-char-driver/main.c:98-180 | for every combination of failures, which lines are stored, which tail is left and which value is returned, given how the stream falls into lines and a rest |
| DeviceSpec.WriteKeepsShape | aesd-char-driver/main.c:98-180 | on every return path stored lines keep their shape and the tail has no newline |
| DeviceSpec.WriteConserves | aesd-char-driver/main.c:98-180 | on every return path, bytes kept followed by bytes lost are the bytes there were and the bytes given, in order; a success loses none |
| DeviceSpec.AtomicWhateverFails | aesd-char-driver/main.c:111-164 | writes of given bytes are atomic under every failure exactly when the device holds no tail and the write stores at most one piece |
| DeviceSpec.HeadersPerLine | aesd-char-driver/main.c:140-153 | a run of writes allocates one header per line it adds and one per write that returns -EINVAL, of which a run of successes has none |
| DeviceSpec.WriteAllocates | aesd-char-driver/main.c:106-161 | how many blocks a write allocates for every combination of failures |
| DeviceSpec.BlocksOfSuccesses | aesd-char-driver/main.c:106-161 | a run of successful writes allocates a buffer per write, a header and a payload per line, and a block per tail left |
| DeviceSpec.WindowIsNewestTen | aesd-char-driver/aesd-circular-buffer.h:32 | the lines kept are all lines accepted, or the newest ten when there are more |
| DeviceSpec.WindowAfterWrite | aesd-char-driver/main.c:138-157 | the window after a write is the newest ten of the window before and the lines completed |
| DeviceSpec.FailedWriteLosesTail | aesd-char-driver/main.c:126-136 | a concrete interrupted write that loses the tail |
| DeviceSpec.RunsCompose | aesd-char-driver/main.c:98-180 | a longer run of writes, failures included, continues where a shorter one ends |
| DeviceSpec.RunIsOneWrite | aesd-char-driver/main.c:104-169 | any run of successful writes leaves the same history and position advance as one write of all their bytes, so short writes do not show |
| DeviceSpec.HistoryRefinement | aesd-char-driver/main.c:104-167 | after any run of successful writes from a fresh device the window is the newest ten lines of the stream and the tail its unterminated rest; evicted, stored and tail bytes are the stream |
| DeviceSpec.ChunkingInvariance | aesd-char-driver/main.c:104-169 | two ways of cutting the same bytes into successful writes give the same device and the same advance |
| DeviceSpec.RunConserves | aesd-char-driver/main.c:98-180 | over any run, failures included, evicted + stored + tail + lost bytes add up, and lines are accepted and evicted in order |
| DeviceSpec.Locate | aesd-char-driver/aesd-circular-buffer.c:32-46 | a place inside a line, or none exactly from the end of the flat file on |
| DeviceSpec.LocateExact | aesd-char-driver/aesd-circular-buffer.c:32-46 | a place is found at a position if and only if its line starts that many bytes before |
| DeviceSpec.LocateByte | aesd-char-driver/aesd-circular-buffer.c:22-31 | the byte found is the byte at that position of all stored lines end to end |
| DeviceSpec.ReadInside | aesd-char-driver/main.c:69-90 | a read inside the file returns the next bytes of it, at most count, at least one |
| DeviceSpec.ReadStopsAtLineEnd | aesd-char-driver/main.c:76-90 | a read returns as many bytes as asked for, or up to and including the end of the line, and never goes past it |
| DeviceSpec.ReadAtEnd | aesd-char-driver/main.c:70-74 | a read at or after the end returns nothing |
| DeviceSpec.DrainIsSuffix | aesd-char-driver/main.c:58-96 | reading on with any positive counts returns the rest of the file, in order and without gaps, and ends |
| DeviceSpec.SeekExact | aesd-char-driver/main.c:205-238 | a seek is accepted exactly for an offset up to the length of a stored line and for offset 0 of one of the ten commands that is not stored, and leads to that byte or to the end |
| DeviceSpec.SeekThenLocate | aesd-char-driver/main.c:205-238 | after an accepted seek the lookup finds that byte of that line; at the end of a line the next line, or nothing after the last |
| DeviceSpec.LocateThenSeek | aesd-char-driver/main.c:205-238 | seeking to the place found for a position gives the position back |
| DeviceSpec.SeekThenDrain | aesd-char-driver/main.c:220-236 | what is left to read after a seek is the rest of that line and the lines after it |
| DeviceMemory.StoreLine | aesd-char-driver/main.c:142-153 | storing a line keeps every block held exactly once and appends the line to the history |
| DeviceMemory.DropTail | aesd-char-driver/main.c:126-130 | freeing the tail keeps ownership and loses the tail only |
| DeviceMemory.SetTail | aesd-char-driver/main.c:159-167 | a new tail keeps ownership and becomes the tail |
| DeviceMemory.TailEntry | aesd-char-driver/main.c:116-130 | the partial entry is NULL exactly when its size is 0, and describes the tail |
| DeviceMemory.WindowIsStored | aesd-char-driver/aesd-circular-buffer.c:55-67 | the payloads of the ring's entries are the newest lines ever accepted |
| AesdDevice.Device.constructor | aesd-char-driver/main.c:292-295 | a fresh device with no history |
| AesdDevice.Device.AddLine | aesd-char-driver/main.c:140-153 | one round of the write loop appends one line, or changes nothing when the copy fails; either way one header block more stays allocated |
| AesdDevice.Device.AddHeader | aesd-char-driver/main.c:141 | a header block is allocated and nothing else changes |
| AesdDevice.Device.Replace | aesd-char-driver/main.c:150-153 | the displaced payload, and only it, is freed |
| AesdDevice.Device.Gather | aesd-char-driver/main.c:116-124 | the working buffer holds the tail and the new bytes |
| AesdDevice.Device.FreePartial | aesd-char-driver/main.c:126-130 | the tail is freed once and forgotten |
| AesdDevice.Device.StoreLines | aesd-char-driver/main.c:138-167 | the loop stores exactly the lines of the buffer and its tail, or the lines before the failing copy, with the number of blocks it allocates |
| AesdDevice.Device.SetPartial | aesd-char-driver/main.c:159-167 | the tail is kept in a block of its own, or lost when the copy fails |
| AesdDevice.NextLine | aesd-char-driver/main.c:139-156 | each piece the scan cuts off is the next line of the stream |
| AesdDevice.OpenFile.Write | aesd-char-driver/main.c:98-180 | new history, return value and position of a write for every combination of failures, mutex released, how many blocks and headers it allocates, and nothing freed is forgotten |
| AesdDevice.OpenFile.WriteLocked | aesd-char-driver/main.c:132-172 | the same for the part that holds the mutex |
| AesdDevice.OpenFile.Read | aesd-char-driver/main.c:58-96 | returned bytes, return value and position of a read, including both error returns; a position that is a stored error code reads as the end of the file |
| AesdDevice.OpenFile.Llseek | aesd-char-driver/main.c:182-203 | the helper is given the length of the flat file, and its result is stored even when it is an error |
| AesdDevice.OpenFile.AdjustFileOffset | aesd-char-driver/main.c:205-238 | the position is the start of the line plus the offset, or the seek is rejected and nothing changes |
| AesdDevice.Device.Cleanup | aesd-char-driver/main.c:305-324 | what is left allocated is exactly the header blocks; every other block live before is freed now |
| AesdDevice.WriteAll | aesd-char-driver/main.c:98-180 | a run of writes on the device object is the run of its history, and allocates what that run allocates |
| AesdDevice.Lifetime | aesd-char-driver/main.c:282-327 | over any run of writes and failures followed by unload, the blocks allocated are those the run allocates, every payload and working buffer among them was freed exactly once, and what is left is one header per line accepted and one per write that returned -EINVAL |
| ServerSpec.CStringEnds | server/aesdsocket.c:168 | the text of a buffer ends before its first NUL |
| ServerSpec.StrChr | server/aesdsocket.c:175 | the newline search never passes the terminating NUL |
| ServerSpec.StrChrIsIndexOf | server/aesdsocket.c:168-175 | it finds the first newline of the C string |
| ServerSpec.TagTest | server/aesdsocket.c:179 | comparing MIN(length, 18) characters is testing for the whole 18-byte tag |
| ServerSpec.ServesLines | server/aesdsocket.c:172-208 | the segments served are the lines of the chunk without gaps, all of them or up to a refused command; each is parsed with the text after it at hand and written with its own failures; the fragment after the last newline is dropped |
| ServerSpec.EveryExchangeReceived | server/aesdsocket.c:162-214 | over any run, every line served is a line of a chunk its own client sent, with what failed when that line was written |
| ServerSpec.EveryLineServed | server/aesdsocket.c:172-208 | for any group of clients whose connections were not closed, the lines served are all lines of their chunks in lock order |
| ServerSpec.AllLinesServed | server/aesdsocket.c:172-208 | when no connection was closed, the log is all lines received in lock order |
| ServerSpec.ClosedByCommand | server/aesdsocket.c:181-187 | a connection is closed if and only if a command of its own client was refused |
| ServerSpec.RefusedIsLast | server/aesdsocket.c:181-187 | nothing is served for a client after a refused command |
| ServerSpec.ChunkSeam | server/aesdsocket.c:207-208 | the lines served to a client are those of the byte stream it sent exactly when every chunk with an unfinished line is followed only by chunks that complete none |
| ServerSpec.SplitLineLosesItsHead | server/aesdsocket.c:207-208 | a line received in two reads is served without its head |
| ServerSpec.WriteLine | server/aesdsocket.c:190 | a whole line written to a device without a tail is stored or lost, nothing else changes |
| ServerSpec.ServeLineAnswers | server/aesdsocket.c:176-203 | one line is answered from the lines stored so far and leaves no tail |
| ServerSpec.EveryExchangeAnswered | server/aesdsocket.c:162-214 | end to end, from any device without a tail, for any clients, interleaving, chunks and write failures: an untagged line is stored exactly when its write works, a tagged one is left unparsed, accepted or refused as the parser and the seek say, and every reply is the window of the lines stored so far in lock order, or the part from the position a seek sets, or what the position leaves |
| ServerSpec.FaultFreeTraffic | server/aesdsocket.c:162-214 | with nothing failing, for any interleaving of lines and commands, exactly the untagged lines are stored, and each is answered with the newest ten untagged lines in lock order, itself last |
| ServerSpec.CommandsAreNotWritten | server/aesdsocket.c:179-190 | over any run, exactly the lines that start with AESDCHAR_IOCSEEKTO are not written |
| ServerSpec.RefusedExactly | server/aesdsocket.c:180-187 | a command is refused exactly when it names an eleventh line or an offset beyond the end of a line; offset 0 of a line that is not stored keeps the connection open |
| ServerSpec.AtEndIff | server/aesdsocket.c:175-210 | with the device opened at position 0, the position is at the end whenever the lock is free if and only if some line has been answered or the device was empty |
| ServerSpec.UnparsedReply | server/aesdsocket.c:179-203 | with the device opened at position 0, a tagged line that does not parse is sent nothing if some line was answered before, else the whole window; the reply is empty if and only if some line was answered before or the device was opened empty |
| ServerSpec.StoppedHistory | server/aesdsocket.c:195-203 | a run that stops inside a chunk leaves the lines stored by a prefix of the log |
| ServerSpec.OrdinaryLine | server/aesdsocket.c:189-203 | an untagged line is stored and the reply ends with it |
| ServerSpec.SeekReply | server/aesdsocket.c:178-203 | an accepted seek changes nothing stored and is answered with the window from that byte on |
| ServerSpec.RunOneReplies | server/aesdsocket.c:195-203 | a chunk adds replies for its own client and for no other |
| SocketServer.WriteBuffer | server/aesdsocket.c:124-134 | for every schedule of short and empty writes what is delivered is a prefix, the whole buffer on success; a device gets one full write, and none for an empty buffer |
| SocketServer.Server.constructor | server/aesdsocket.c:334 | whatever the device holds, it is opened at position 0 |
| SocketServer.Server.ReadNext | server/aesdsocket.c:196 | one read continues the file where the last one ended, and returns nothing only when all is read |
| SocketServer.Server.Drain | server/aesdsocket.c:195-203 | the client is sent exactly the file from the position on, and the position ends at the end; if a send fails, a prefix |
| SocketServer.Server.Answer | server/aesdsocket.c:179-203 | write or seek, rewind and drain give the reply of one line |
| SocketServer.Server.HandleSegment | server/aesdsocket.c:176-203 | the same on the raw buffer |
| SocketServer.Server.ServeText | server/aesdsocket.c:172-205 | the loop over the segments has the effect of serving the C string line by line |
| SocketServer.Server.HandleChunk | server/aesdsocket.c:162-214 | device, position, socket and lock after one chunk; after a failed send the lock stays held, the device holds what the lines up to that one left and the client got the replies before it and part of the next |
| SocketServer.HandleEvent | server/aesdsocket.c:153-214 | one chunk of one connection changes its own socket only |
| SocketServer.Interleave | server/aesdsocket.c:136-225 | any schedule of chunks from any connections leaves the device and every socket as the run of the specification; with a failing send, as that run up to the exchange it happens in |
| TailQueue.Init | server/queue.h:690-694 | an empty queue |
| TailQueue.InsertHead | server/queue.h:721-732 | the element is first and the heap well formed |
| TailQueue.InsertTail | server/queue.h:734-742 | the element is last and the heap well formed |
| TailQueue.InsertAfter | server/queue.h:696-709 | the element follows the given one |
| TailQueue.InsertBefore | server/queue.h:711-719 | the element precedes the given one, without access to the head |
| TailQueue.Remove | server/queue.h:752-768 | the element is gone, the others keep their order |
| TailQueue.Concat | server/queue.h:635-644 | one queue holds both sequences, the other is empty |
| TailQueue.Swap | server/queue.h:770-785 | the queues have exchanged their sequences, empty ones included |
| TailQueue.Last | server/queue.h:744-745 | the last element or NULL, by reading an entry as a head |
| TailQueue.Prev | server/queue.h:749-750 | the previous element or NULL, likewise |
| TailQueue.Foreach | server/queue.h:650-653 | visits the sequence |
| TailQueue.ForeachReverse | server/queue.h:670-673 | visits it backwards |
| TailQueue.InsertOrder | server/queue.h:696-742 | the inserted element is first, last, or right after or before the given one, and all others keep their order |
| TailQueue.OtherOrder | server/queue.h:635-785 | a removed element is gone and the others keep their order; a concatenated queue is the one followed by the other; swapped queues have changed places |
| TailQueue.QueueHasNoRepeats | server/queue.h:752-768 | no element is on a queue twice |
| TailQueue.RunsCompose | server/queue.h:635-785 | operations take effect in the order given |
| TailQueue.RemoveUndoesInsert | server/queue.h:696-768 | removing an element undoes any of the four insertions |
| TailQueue.RunOps | server/queue.h:635-785 | any legal sequence of operations on two queues changes their sequences exactly as the list operations say and keeps the heap well formed |
| Connections.ConnectionList.InsertHead | server/queue.h:241-244 | the connection is first on the list |
| Connections.ConnectionList.Remove | server/queue.h:248-269 | the search ends and the element is unlinked |
| Connections.ConnectionList.CollectCompleteThreads | server/aesdsocket.c:274-287 | exactly the connections not marked when looked at remain, in order, also when handlers set flags during the pass; the marked ones are joined and freed once each; a freed element is read if and only if some connection is marked |
| Connections.PickedInOrder | server/aesdsocket.c:274-287 | the connections kept, and those collected, are in the order of the list |
| Connections.PickedDistinct | server/aesdsocket.c:278-285 | no connection is joined or freed twice |

## Left out

- AesdDevice.Device.AddHeader: assumes that the allocation succeeds; the source dereferences its result unchecked (main.c:141-142).
- Unserialised writers: two writers racing on `partial` outside the mutex are not modelled.
- Failing lseek, read and ioctl in the server: `OpenFile.Read`, `Llseek` and `AdjustFileOffset` model their failures, but the server's proofs let only its writes and its sends fail.
- Socket reads: a chunk is what `read` returned; read errors, end of stream, polling and closing are I/O.
- Liveness: a thread that waits for a lock left held by a failed send waits for ever, so none is claimed.
- AesdDevice.OpenFile.Llseek: says nothing about `fixed_size_llseek` itself, which is kernel code.
- ioctl decoding, open and release, module registration, debug output: no property beyond a case distinction.
- Size limits: overflow of `size_t`, `ssize_t` and `int` lengths.
- The timer thread, signal handling, option parsing and daemonising: not part of the default data path.
- STAILQ, LIST and the class, debug and invariant-check forms in queue.h: the same pointer surgery with fewer links.
- SLIST_CONCAT, SLIST_SWAP, SLIST_INSERT_AFTER: not used by the server.
