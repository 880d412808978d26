# Verification of the AESD character device, its socket server and their queues

This project models and proves properties of three parts of the repository.

* **The character device** (`aesd-char-driver/`). Writes collect in a cached buffer until a newline arrives; the whole
  collection then becomes one command in a ring of `N` slots (10 in the driver, any `1 <= N <= 255` here, what the 8-bit
  indices allow), and a full ring first gives up its oldest command and frees its buffer. Reads walk the ring from the
  oldest command; `llseek` and the seek ioctl set the file position.
* **The queue macros** (`server/queue.h`): singly-linked lists, lists, singly-linked tail queues and tail queues.
* **The server** (`server/aesdsocket.c`), built for the device: the conversation with one client, and the list of
  connection threads with its accepting, reaping and draining loops.

## How it is modelled

* `ByteStrings.dfy`, `Positions.dfy`: byte strings; flat positions against (piece, byte) pairs; ring-index arithmetic.
* `CircularBuffer.dfy`: the ring as a class over an array of slots. Its ghost field `added` is every entry ever added;
  validity *is* the closed form: the k-th entry sits in slot `k mod N`, and the three ring fields are functions of the
  number of entries added.
* `CommandLog.dfy`: the device without its memory, as a growing log of commands and a cache; reading, seeking, eviction.
* `Driver.dfy`: the device as a class with its ring, its cached entry and an explicit heap of allocations by address.
  `kmalloc`, `krealloc`, `kfree` and `copy_from_user` are methods on that heap: addresses are chosen freely and may be
  reused, `krealloc` may move, shrink or fail, a copy may stop short. Freeing or reading an address that is not
  allocated is not possible in the model, so each use is a proof. The ghost field `freed` records every `kfree`.
* `ReaderRuns.dfy`: one reader among any writers, over whole runs of reads, writes and seeks, with evictions,
  and the same runs on the device.
* `Connection.dfy`: what a client's conversation amounts to, and the receive/write/echo loop over its 1024-byte buffer.
  What the kernel does to each write (`Fault`) and the scanning of the two numbers of a seek request (`parse`) are
  parameters.
* `Queues.dfy`: every head and entry begins with its forward pointer, so a pointer to a forward pointer is modelled as
  the object that holds it; `tqh_last` and `tqe_prev` are then one `prev` field, and reading an entry as if it were a
  head is `l.prev.prev.next`. A list is described by the sequence `p` of its head (`p[0]`) and its elements.
  `modifies` clauses name the fields an operation may touch.
* `ThreadList.dfy`: the thread list over those queues. The map `threads` is the set of allocated thread structures, by
  the list entry they embed. Freeing removes the key, which every access to a flag or a number needs, and leaves arbitrary
  values in the entry's links, so that nothing can be concluded from a link read after the free. Threads are numbered in
  the order they are started; which of them set `work_done` before each test of each reaping pass is a parameter by
  number, so it ranges over threads not yet started when the loop is entered. The ghost field `pool` (numbers started,
  listed, finished and joined) is tied to the real structures by `Kept`.

## Main results

1. `Driver.Device.Write`: with every allocation and copy fault, the device's memory after a write is that of the log
   of the bytes taken, buffers are owned exactly and each evicted one is freed once.
2. `Driver.Device.Cleanup`: removing the module frees every command ever committed exactly once; the cached
   buffer alone stays allocated.
3. `CircularBuffer.AddRepresents`, `Ring.Find`, `TotalIsRotationInvariant`: the ring is a closed form in the number of
   entries added, at every rotation and fill level.
4. `Positions.LocateInvertsEncode`: lookup by position and seeking by piece and byte are inverse, both ways.
5. `CommandLog.CommandsAreLinesIff`, `ChunkingDoesNotMatter`: exactly when commands are the lines of the bytes written.
6. `CommandLog.SlotSeekIsCommandSeekIff`, `SlotSeekDiffers`, `UnrotatedSeek`: exactly when a seek by slot names commands.
7. `ReaderRuns.RunStaysFaithful`, `NoEvictionNoGap`, `Perform`: what one reader, seeking at will, gets among any writers
   over whole runs, and that every run on the device gives just that.
8. `Conversation.EchoCompleteIff`, `Connection.HandleConnection`: exactly when a client is echoed the whole stream, and
   the loop over its 1024-byte buffer does that for every splitting and every fault.
9. `SList`, `DList`, `STailQ`, `TailQ`: every operation of `queue.h` refines its operation on sequences.
10. `ThreadList.Server.Reap`, `AcceptLoop`, `RunJoinsFinished`: over any run the passes join and free exactly the threads
    whose flag is set when their turn comes, each once and no later than in the pass after it; only the drain joins
    others; and no freed structure is followed.

## Results that are not what one might expect

* Commands are the lines of what was written exactly when no accepted chunk goes on after a newline
  (`CommandsAreLinesIff`; `LinesDiffer` gives a chunk that does): the driver looks for a newline anywhere in the
  collected bytes.
* The ioctl header promises a seek into a numbered write command, but the code indexes slots. The two agree for all
  arguments exactly when the slot sizes equal the sizes of the commands oldest first, as they do until the first
  eviction (`SlotSeekIsCommandSeekIff`); `SlotSeekDiffers` gives a disagreement at the driver's capacity.
* The first echo of a connection without seeks is everything readable, whatever has been evicted before. From then on
  what has been sent is the whole stream since that echo exactly as long as the device evicts nothing more
  (`EchoCompleteIff`; `EchoDiffers` shows it fail): eviction moves the remaining bytes down while the file position
  stays. A reader still gets only bytes of the stream, in order and, until it seeks, none twice (`RunStaysFaithful`).
* Removing the module releases every command's buffer and leaves the cached entry's buffer allocated (`Device.Cleanup`).
* The server answers a chunk with a newline anywhere in it; its comment speaks of a packet that ends with one.

## Model

| member | source | states |
|---|---|---|
| Positions.LocateInvertsEncode | aesd-char-driver/aesd-circular-buffer.c:36-74 | looking a position up and encoding a (piece, byte) pair are inverse to each other, both ways, for any sizes, zeros included |
| Positions.EncodeBelowTotal | aesd-char-driver/main.c:217-220 | a position built from a valid pair is always below the total |
| Positions.EncodeDetermines | aesd-char-driver/main.c:210-220 | two size lists accept and map all pairs alike if and only if they are equal up to trailing zeros |
| CircularBuffer.LogicalOrder | aesd-char-driver/aesd-circular-buffer.c:49-71 | stepping from `out_offs` modulo N meets the live entries oldest first, then only empty slots |
| CircularBuffer.PhysicalOrder | aesd-char-driver/aesd-circular-buffer.h:77-80 | slot order is the live entries rotated by `out_offs` when full, followed by empty slots when not |
| CircularBuffer.SlotsInUse | aesd-char-driver/aesd-circular-buffer.h:77-80 | exactly the first slots are in use, and which live entry each holds |
| CircularBuffer.TotalIsRotationInvariant | aesd-char-driver/aesd-circular-buffer.c:118-127 | the total in slot order equals the total of the live entries at every rotation and fill level |
| CircularBuffer.AddKeepsLive | aesd-char-driver/aesd-circular-buffer.c:105 | writing the next slot overwrites no entry that stays live |
| CircularBuffer.IndicesStep | aesd-char-driver/aesd-circular-buffer.c:97-113 | the index updates preserve: `in_offs` = n mod N, `full` iff n >= N, `out_offs` = 0 or n mod N |
| CircularBuffer.AddRepresents | aesd-char-driver/aesd-circular-buffer.c:83-116 | after an add, slots, indices and `full` are the closed form for one entry more |
| CircularBuffer.Ring.constructor | aesd-char-driver/aesd-circular-buffer.c:132-135 | the empty ring is the closed form for no entries |
| CircularBuffer.Ring.Find | aesd-char-driver/aesd-circular-buffer.c:36-74 | the scan returns the slot, which has a buffer, and the byte of the position among the live entries, skipping entries without a buffer, and nothing iff the position is at or past the total |
| CircularBuffer.Ring.AddEntry | aesd-char-driver/aesd-circular-buffer.c:83-116 | the entry fills the slot at `in_offs` and joins the live ones, the indices step, the oldest leaves iff the ring was full, and the returned pointer is that oldest one's or NULL |
| CircularBuffer.Ring.EntriesTotalSize | aesd-char-driver/aesd-circular-buffer.c:118-127 | the loop in slot order computes the total of the live entries |
| CommandLog.AppendKeeps | aesd-char-driver/main.c:146-173 | a write appends exactly its bytes; every command has a newline and the cache none; scanning all collected bytes for a newline decides the same as scanning the new ones |
| CommandLog.RunConserves | aesd-char-driver/main.c:103-178 | over any run of accepted chunks, commands and cache together are the old content followed by the chunks, and no command is changed |
| CommandLog.WritesConserve | aesd-char-driver/main.c:126-155 | the same over any run of writes, each of which takes nothing when it gets no memory and else all but the bytes that fail to copy |
| CommandLog.AppendLine | aesd-char-driver/main.c:157-169 | one write keeps all commands lines iff no byte of it follows a newline of it |
| CommandLog.RunLines | aesd-char-driver/main.c:157-169 | over a run, all commands are lines iff no chunk goes on after a newline |
| CommandLog.CommandsAreLinesIff | aesd-char-driver/main.c:157-173 | from an empty device, commands and cache are the line split of the accepted bytes iff no accepted chunk goes on after a newline |
| CommandLog.LinesDiffer | aesd-char-driver/main.c:157-173 | one chunk that goes on after its newline, and becomes a command that is no line |
| CommandLog.LineSplitUnique | aesd-char-driver/main.c:157-173 | a byte string has only one line split |
| CommandLog.ChunkingDoesNotMatter | aesd-char-driver/main.c:103-178 | writers that never go on after a newline reach the same state however the same bytes are chunked |
| CommandLog.ReadAtIsSlice | aesd-char-driver/main.c:79-96 | a read returns the readable bytes from the position on, at most `count` of them, and none iff at the end or `count` is 0 |
| CommandLog.ReadFillsCommand | aesd-char-driver/main.c:83-94 | a read takes all it is asked for, up to the end of the command its position lies in |
| CommandLog.ReadAdvances | aesd-char-driver/main.c:79-96 | what followed the position is what the read returned and what follows the new position |
| CommandLog.DrainDelivers | aesd-char-driver/main.c:62-101 | reads with any positive counts deliver in order what follows the position, all of it within as many calls as bytes, then nothing |
| CommandLog.EncodedReadsBack | aesd-char-driver/main.c:217-220 | a read at an encoded (command, byte) returns that command's bytes from that byte on |
| CommandLog.EncodedSuffix | aesd-char-driver/main.c:217-220 | what follows an encoded position is the rest of that command and all later ones |
| CommandLog.SuffixAt | aesd-char-driver/main.c:79-96 | what follows any position inside is the rest of the command it lies in and all later ones |
| CommandLog.SlotSeekIsCommandSeekIff | aesd-char-driver/main.c:210-220 | seeking by slot is seeking by command, rejections included, iff slot sizes equal command sizes oldest first; while `out_offs` is 0 they do |
| CommandLog.UnrotatedSeek | aesd-char-driver/main.c:199-225 | while `out_offs` is 0 the read after a granted seek starts at byte `write_cmd_offset` of the `write_cmd`-th oldest command |
| CommandLog.SlotSeekDiffers | aesd-char-driver/main.c:210-220 | eleven writes to a new device after which the two disagree |
| CommandLog.SlotSeekRejects | aesd-char-driver/main.c:210-215 | a seek is rejected iff the slot is not in use or the offset is past its command; used slots are never empty |
| CommandLog.SlotTotal | aesd-char-driver/main.c:189 | the slots hold exactly what is readable, at every rotation and fill level |
| CommandLog.EvictedThenReadable | aesd-char-driver/aesd-circular-buffer.c:97-102 | all commands are the evicted bytes followed by the readable ones |
| CommandLog.WriteMovesReadable | aesd-char-driver/aesd-circular-buffer.c:83-116 | a write extends the readable bytes at the end, and an eviction moves every remaining byte down by the evicted command's length |
| CommandLog.SameEvictedIff | aesd-char-driver/aesd-circular-buffer.c:97-102 | nothing more has been evicted iff the log has at most N commands or got none |
| ReaderRuns.WriteStaysFaithful | aesd-char-driver/main.c:103-178 | a write, evicting or not, keeps the account of what a reader has seen and passed over between its seeks |
| ReaderRuns.ReadStaysFaithful | aesd-char-driver/main.c:62-101 | so does a read, whatever its count and position |
| ReaderRuns.SeekStaysFaithful | aesd-char-driver/main.c:180-225 | so does a request for a new position, granted or not |
| ReaderRuns.ReadDelivers | aesd-char-driver/main.c:62-101 | a read gives the reader a prefix of what follows its position, nothing only at the end or when nothing is asked for, and moves it on by as much |
| ReaderRuns.SeekGoes | aesd-char-driver/main.c:180-225 | a granted request puts the reader at the target and begins a new stretch there beside the old ones, a refused one changes nothing, and a seek request is granted exactly for the bytes in the slots |
| ReaderRuns.RunStaysFaithful | aesd-char-driver/main.c:62-225 | over any interleaving of writes, reads, `llseek` and seek requests, every byte a reader got is the byte of the command stream at its origin; between two seeks the origins increase from the place sought, and none is further on than the bytes got before it and the bytes evicted meanwhile |
| ReaderRuns.NoEvictionNoGap | aesd-char-driver/main.c:62-225 | a run without eviction delivers, between any two seeks, one unbroken stretch of the command stream |
| ReaderRuns.PerformOne | aesd-char-driver/main.c:62-225 | each file operation on the device is one step of such a session |
| ReaderRuns.Perform | aesd-char-driver/main.c:62-225 | any run of file operations on the device ends in the log and position of such a session and has delivered exactly its bytes, faithfully |
| Driver.CommitOwns | aesd-char-driver/main.c:157-169 | moving the collected buffer into the ring keeps ownership exact and unaliased |
| Driver.EvictOwns | aesd-char-driver/main.c:162-165 | freeing the oldest command's buffer keeps ownership exact and frees no other owner's buffer |
| Driver.StageOwns | aesd-char-driver/main.c:131-155 | replacing the cached buffer by a new or moved one keeps ownership exact |
| Driver.CommitRepresented | aesd-char-driver/main.c:157-169 | a commit into a ring with room keeps memory and log in agreement |
| Driver.EvictRepresented | aesd-char-driver/main.c:157-169 | a commit into a full ring does so too, releasing the oldest command's buffer as the next release |
| Driver.StageRepresented | aesd-char-driver/main.c:131-155 | so does collecting more bytes |
| Driver.SlotSizes | aesd-char-driver/main.c:210-219 | the sizes the seek ioctl sees: positive exactly in the used slots, those of the log's commands by slot, adding up to the readable length |
| Driver.SlotPosition | aesd-char-driver/main.c:210-220 | a byte named by slot is where the sizes of the slots before it put it, below the readable length, iff the slot has that byte |
| Driver.BytesOfEntry | aesd-char-driver/main.c:85-94 | the memory a read copies from is inside one live allocation and holds the bytes the log has there |
| Driver.AllReleased | aesd-char-driver/main.c:320-325 | after a walk that released the slots in order, every command ever committed has been released exactly once and only the cached buffer is left |
| Driver.Device.constructor | aesd-char-driver/main.c:289-297 | a new device holds nothing and owns nothing |
| Driver.Device.Krealloc | aesd-char-driver/main.c:136 | a failed call changes nothing, a successful one replaces the allocation and keeps what fits |
| Driver.Device.CopyFromUser | aesd-char-driver/main.c:146-155 | all but the uncopied last bytes arrive behind what was there |
| Driver.Device.Stage | aesd-char-driver/main.c:131-155 | the collected buffer starts with the cached bytes followed by the taken ones, or nothing has changed |
| Driver.Device.Commit | aesd-char-driver/main.c:157-169 | the collected bytes become the newest command, the evicted buffer is freed once, ownership stays exact |
| Driver.Device.Write | aesd-char-driver/main.c:103-178 | a write without memory fails with ENOMEM and changes nothing; any other takes all but the bytes that fail to copy and returns their number, they become a command together with the cached ones iff a newline is among them, and the whole invariant is kept |
| Driver.Device.Read | aesd-char-driver/main.c:62-101 | delivers what the log has at the position, within one command, and advances by it |
| Driver.Device.Llseek | aesd-char-driver/main.c:180-197 | moves to the offset counted from 0, the position or the readable length as `whence` says, if that is within the readable bytes or where it stands, or fails with EINVAL and stays |
| Driver.Device.AdjustFileOffset | aesd-char-driver/main.c:199-225 | moves to the offset behind the sizes of the slots before, always below the readable length, iff the slot has that byte, or fails with EINVAL and stays |
| Driver.Device.Cleanup | aesd-char-driver/main.c:309-330 | every command ever committed has been freed exactly once, the slots are cleared, and the cached buffer alone stays allocated |
| Driver.Device.ReleaseSlots | aesd-char-driver/main.c:320-325 | the walk ends with every slot's buffer freed, in slot order, nothing else freed, and the slots cleared |
| Driver.BuffersBounded | aesd-char-driver/main.c:131-173 | in every reachable state there are at most N + 1 allocations |
| Driver.LlseekThenRead | aesd-char-driver/main.c:180-197 | after a successful llseek a read returns nothing iff the position is not below the readable length or nothing is asked for |
| Conversation.ServeExtends | server/aesdsocket.c:161-224 | serving a client only ever adds commands |
| Conversation.ServeProgress | server/aesdsocket.c:161-224 | from a state in which nothing evicted since `lost` bytes had been was left unsent, such as the start or just after an answer, without seeks the file position counts the bytes sent, and from the next eviction on some byte stays unsent |
| Conversation.ServedChunk | server/aesdsocket.c:161-224 | a seek leaves the log and moves the position, any other chunk is written, and then a chunk with a newline, and no other, is answered with all that follows the position |
| Conversation.SeekEndsAt | server/aesdsocket.c:171-222 | an answered seek ends at the end of what is readable, an unanswered one at the byte sought |
| Conversation.RefusedIff | server/aesdsocket.c:178-193 | a chunk is refused iff it names a slot not in use or a byte its command does not have, or gets no memory; otherwise, and only then, it can be handled |
| Conversation.EchoCompleteIff | server/aesdsocket.c:203-222 | without seeks the first answer sends everything then readable; after any later answer all that was sent is the stream since where the first answer began iff the device has evicted nothing since the first answer, and then it is everything readable |
| Conversation.EchoDiffers | server/aesdsocket.c:203-222 | two answered lines on a device of capacity 1: what was sent is neither the stream nor everything readable |
| Conversation.EchoSinceStart | server/aesdsocket.c:203-222 | counted from the start instead, the client has been sent everything readable at the start and every command since iff nothing was evicted since the start |
| Conversation.SeekThenAnswer | server/aesdsocket.c:171-222 | an answered seek that is granted sends the rest of the command the position lies in and all later ones; that is the named command and byte iff naming them by age gives the same position |
| Connection.RequestIff | server/aesdsocket.c:170-176 | a chunk is a seek iff it begins with the 19 bytes of the command and two numbers can be scanned |
| Connection.ReadInto | server/aesdsocket.c:209 | one read moves the next pending bytes into the buffer, none only at the end |
| Connection.SendRest | server/aesdsocket.c:209-221 | the loop ends and has sent exactly what was pending |
| Connection.PaddingAddsNoNewline | server/aesdsocket.c:204 | in the cleared buffer, scanning all of it for a newline decides the same as scanning the chunk |
| Connection.SeekFreeLog | server/aesdsocket.c:186-194 | without seeks the device holds what writing the chunks one after the other leaves, whatever each write was dealt |
| Connection.SeekFreeEcho | server/aesdsocket.c:138-235 | the echo of a connection whose chunks spell no seek and whose last chunk has a newline is that of `EchoCompleteIff`, counted from the first chunk with a newline |
| Connection.StoreOrSeek | server/aesdsocket.c:170-194 | a chunk that is a seek leaves the log and moves the position, or ends the server; any other is written and leaves the position, ending the server iff it gets no memory |
| Connection.HandleChunk | server/aesdsocket.c:161-224 | one turn of the loop is one step of the conversation and leaves the buffer cleared |
| Connection.HandleConnection | server/aesdsocket.c:138-235 | all bytes sent and the device's log are those of the conversation, chunk by chunk, up to the first refused one; without seeks the log is that of the chunks and the echo is complete iff nothing was evicted since the first answer |
| Links.ChainDetermined | server/queue.h:207-210 | two lists behind one head agree element by element |
| Links.HeadDeterminesList | server/queue.h:207-210 | the head alone determines the elements and their order |
| Links.Foreach | server/queue.h:650-653 | forward traversal visits the elements in order and ends |
| Links.InsertedAtIndex | server/queue.h:236-244 | insertion puts the element at its place, keeps the others in order, and removal there undoes it |
| Links.RemovedAtIndex | server/queue.h:248-269 | removal keeps the other elements in order |
| SList.Init | server/queue.h:232-234 | an empty list |
| SList.InsertHead | server/queue.h:241-244 | refines insertion at the front |
| SList.InsertAfter | server/queue.h:236-239 | refines insertion behind an element |
| SList.RemoveHead | server/queue.h:267-269 | refines removal of the first element |
| SList.RemoveAfter | server/queue.h:262-265 | refines removal behind an element |
| SList.Remove | server/queue.h:248-260 | the search ends and refines removal; only the predecessor's pointer changes |
| SList.Concat | server/queue.h:190-201 | the walk ends and refines concatenation, emptying the second list |
| SList.Swap | server/queue.h:271-275 | exchanges the contents of two lists |
| DList.Init | server/queue.h:508-510 | an empty list |
| DList.PrevIsPredecessor | server/queue.h:539-542 | the back pointer yields the predecessor, NULL for the first |
| DList.InsertHead | server/queue.h:529-535 | refines insertion at the front with all back pointers right |
| DList.InsertAfter | server/queue.h:512-519 | refines insertion behind an element |
| DList.InsertBefore | server/queue.h:521-527 | refines insertion before an element, without the head, also when its back pointer is to the head |
| DList.Remove | server/queue.h:544-555 | refines removal without the head or a walk, also of the first element |
| DList.Concat | server/queue.h:467-482 | refines concatenation with all back pointers right |
| DList.Swap | server/queue.h:557-565 | exchanges the contents with all back pointers right |
| STailQ.Init | server/queue.h:340-343 | an empty queue whose tail pointer is its own |
| STailQ.LastIsLast | server/queue.h:363-366 | the tail pointer yields the last element, NULL when empty |
| STailQ.InsertHead | server/queue.h:351-355 | refines insertion at the front with the tail pointer right |
| STailQ.InsertTail | server/queue.h:357-361 | refines insertion at the end |
| STailQ.InsertAfter | server/queue.h:345-349 | refines insertion behind an element |
| STailQ.RemoveHead | server/queue.h:390-394 | refines removal of the first element |
| STailQ.RemoveAfter | server/queue.h:384-388 | refines removal behind an element |
| STailQ.Remove | server/queue.h:370-382 | the search ends and refines removal |
| STailQ.Concat | server/queue.h:308-314 | refines concatenation, emptying the second queue |
| STailQ.Swap | server/queue.h:396-407 | exchanges the contents with both tail pointers right |
| TailQ.Init | server/queue.h:690-694 | an empty queue whose tail pointer is its own |
| TailQ.LastIsLast | server/queue.h:744-745 | reading the tail pointer's holder as a head yields the last element, NULL when empty |
| TailQ.PrevIsPredecessor | server/queue.h:749-750 | reading the back pointer's holder as a head yields the predecessor, NULL for the first |
| TailQ.ForeachReverse | server/queue.h:670-673 | backward traversal visits the k-th element from the end k-th, and ends |
| TailQ.InsertHead | server/queue.h:721-732 | refines insertion at the front with all links right |
| TailQ.InsertTail | server/queue.h:734-742 | refines insertion at the end |
| TailQ.InsertAfter | server/queue.h:696-709 | refines insertion behind an element |
| TailQ.InsertBefore | server/queue.h:711-719 | refines insertion before an element, without the head |
| TailQ.Remove | server/queue.h:752-768 | refines removal with all links right |
| TailQ.Concat | server/queue.h:635-644 | refines concatenation, emptying the second queue |
| TailQ.Swap | server/queue.h:770-785 | exchanges the contents with all links right |
| ThreadList.EachThreadOnce | server/aesdsocket.c:329-373 | no thread is joined twice or joined while listed, and each thread started is listed or joined |
| ThreadList.PassJoinsFinished | server/aesdsocket.c:361-372 | a pass joins exactly the threads whose flag was set by the time of their own test, and leaves none listed that had set it when the pass began |
| ThreadList.RunJoinsFinished | server/aesdsocket.c:329-373 | over any run the passes join exactly the threads, old or started by the run, whose flag was set when their turn came, each no later than in the pass after it was set |
| ThreadList.RunFlagsAreSet | server/aesdsocket.c:233 | a flag is set after a run iff it was before or its thread, already started, set it before some test of some pass |
| ThreadList.ReapIndex | server/aesdsocket.c:362-372 | where the thread under test stands in the shrinking list, and which element comes next |
| ThreadList.ReapTest | server/aesdsocket.c:362-372 | taking off a thread seen finished, and keeping another, both lead from the state of the pass after k tests to that after k + 1 |
| ThreadList.KeptFlags | server/aesdsocket.c:233 | when threads set their flags the structures still hold the numbers and flags of the listed threads |
| ThreadList.KeptStart | server/aesdsocket.c:338-358 | so they do when a thread is started and listed |
| ThreadList.KeptJoin | server/aesdsocket.c:365-370 | so they do when a thread at any place of the list is joined and freed |
| ThreadList.Server.constructor | server/aesdsocket.c:283 | no threads at the start |
| ThreadList.Server.HandlersFinish | server/aesdsocket.c:233 | other threads set their own flags and nothing else |
| ThreadList.Server.JoinAndFree | server/aesdsocket.c:365-370 | a thread taken off the list is joined once and freed, its links included |
| ThreadList.Server.TakeOff | server/aesdsocket.c:365-370 | removal, join and free of one thread at its place, with the whole invariant kept |
| ThreadList.Server.ReapOne | server/aesdsocket.c:362-372 | one turn of the pass: the next element is known before the thread under test may be freed |
| ThreadList.Server.Reap | server/aesdsocket.c:361-372 | the pass ends and leaves, in order, exactly the threads not seen finished; the others have been joined, in order, and freed, even if flags are set meanwhile, and no link of a freed one is followed |
| ThreadList.Server.Accept | server/aesdsocket.c:338-358 | a started thread is listed first, or the server has drained its list |
| ThreadList.Server.Enlist | server/aesdsocket.c:350-358 | a started thread becomes the first of the list |
| ThreadList.Server.Cleanup | server/aesdsocket.c:64-75 | the drain ends with an empty list, having joined each listed thread once, in order, and freed it |
| ThreadList.Server.AcceptLoop | server/aesdsocket.c:329-373 | for any connections and any finishing times, of threads the loop starts too, the threads go through the run of the connections served; if the server gives up, the list is drained and each thread started has been joined once |

## Left out

- Taking the mutex: each file operation is one atomic step, and the path on which taking the lock is interrupted is not modelled.
- Device registration, open and release, ioctl number decoding, debug output, and faults while copying to the user in a read.
- Machine widths of sizes and positions: they are natural numbers, so the model is that of states whose sizes fit their types; the 8-bit ring indices are modelled.
- Driver.FixedSizeLlseek: the kernel's `fixed_size_llseek` is not part of this repository; it is modelled as bounding the target by the given size, and as granting a request for the current position.
- Connection.HandleConnection: does not model the scanning of the two numbers of a seek request, which is a parameter, nor partial sends and other connections sharing the global descriptor.
- Sockets, signals and a drain begun by a signal handler, daemonising, the timestamp thread, and the build that writes to a plain file instead of the device.
- ThreadList.Server.Accept: a failing `accept` call is retried without any effect and is not modelled; `pthread_join` always succeeds.
- ThreadList.Server.TakeOff: records the join together with the free, after the removal; in the reaping loop it comes before the removal, and neither touches what the other uses.
- Links.Foreach: the variants that start from a given element, and those that read the next element ahead, are not modelled separately; the reading-ahead one appears in the reaping loop.
- The debugging and kernel-invariant variants of the queue macros, which are compiled out.
- The example programs, the finder application, shell scripts and tests: thin wrappers over system calls.
