# The gogoCLIENT cores, modelled and proved in Dafny

The native `gogoc` client (under `jni/gogoc-1_2-RELEASE` of the repository) contains a number of
algorithmic cores. This project models them, one module to a source file or two, in the form the code
has: objects that change are classes, loops are methods with invariants, and every such method is proved
against a function whose own properties are proved as lemmas. `dafny verify dfyconfig.toml` checks it all.

* **Message transport.** `Messages`, `Servents` and `Reassembly` are the message record, the cutting of a
  message into numbered packets and its reassembly. `Transport` is the transition system of poster, sender
  thread, receiver thread and manager, one step at a time and in any interleaving; `Managers` holds the
  same operations as methods of the manager object. `StatusMessages` serializes the structures that
  travel in messages and takes them apart again, and `EndToEnd` puts the two together.
* **Deque.** `Sorting` is the sentinel quicksort on an array, `Deques` the doubly linked queue on the heap
  with its cursor, its sort, the two parallel indexes and the search.
* **MD5.** `Md5` is the streaming context, for every block compression function, against the padding and
  chaining of RFC 1321.
* **Keepalive.** `Echo` is the echo engine with its event list, its counters and the general-timeout rule,
  `KeepAlive` the thread on top of it and the race on its status.
* **Codecs and buffers.** `ByteFifo` is the growable byte FIFO, `Records` the typed records on it,
  `NameValue` the configuration file, `DnsUpdate` the dynamic update message together with a reader that
  follows the RFCs, `Base64` and `Checksum` what their names say. `Bytes` and `Options` are shared.

## What the model assumes

* The pipe is a first-in first-out sequence of whole packets; a short write adds no packet a reader can
  see, and the peer's receiver starts anew with each connection. Packet headers are records with fields of
  4, 6, 6, 6 and 10 bits; their place in memory is the compiler's choice.
* Each operation on the send queue is atomic and there is one poster at a time. Assertions of the original
  do not stop the program, as in a release build. The semaphore counts to any maximum of 512 or more: 512 on
  Windows, the limit of the system on Linux, where the given maximum is not used.
* Message headers, enumerations and status words are stored by a little-endian host, on which `time_t` has
  64 bits.
* What the outside decides is a parameter or a sequence of events: channel readiness and errors, `malloc`
  results, the clock, the outcomes of `select` and `recv`, whether a file opens, the time stamp.
* Times of the echo engine are integer microseconds where the original computes with doubles.
* In `Echo.Engine.Process` the clock is later at each request than at the one before.

## Where the code is not what its description or its callers expect

Each of these is a theorem; where things go wrong for some inputs only, it says for exactly which.

* A reset of the sender between a poster's push and its release leaves one token too many, until the next
  reset or until a release finds the semaphore at its maximum (`Transport.QueueMatchesSemaphore`,
  `Transport.ResetRace`). Delivery in order survives it.
* The manager starts its threads before it sets the connected state, and can so overwrite the disconnected
  state of a thread that has already failed; no clean-up follows until another failure
  (`Transport.FailureIsSeen`, `Transport.OverwrittenStays`).
* `KA_start` writes the status after it has created the thread, and can overwrite the thread's final
  status (`KeepAlive.StatusTellsResult`, `KeepAlive.TimeoutLost`, `KeepAlive.KaEngine.StartLate`).
* A signal that interrupts `select` counts as an expired wait, so a request can be counted late before it is
  due (`Echo.Engine.EarlyExactly`). The timeouts of all other statements are the ones counted.
* `_insert_echo_event` in front of another event closes a cycle of two (`Echo.Engine.InsertEvent`,
  `Echo.CycleIsNoList`).
* `Q_Sort` gives QuickSort no sentinel: the word after the index block is compared exactly when the key of
  a partition that ends there strictly exceeds the rest of its range, which the data alone decide, and the
  scan leaves the block exactly when that word is smaller still (`Sorting.Partition`, `Sorting.QuickSort`,
  `Deques.SortTwoOne`).
  `Deques.Queue.Sort` therefore takes that word as an argument. The cursor always ends at the head, not at
  the element it was on. `Q_Insert` reports success when its node could not be allocated.
* The loop of `MD5Update` reads past its chunk if and only if the chunk's full blocks, counted from the first
  block boundary in it, end above 2^32 - 64 (`Md5.LoopStaysInside`); no chunk at a block boundary is such a
  chunk (`Md5.ChunksThatFit`).
* `buffer_put_string` accepts four times what `buffer_get_string` will read (`Records.RoundTrip`).
* `ReadConfigurationData` takes a line without `=` as a name, although it is described to fail; it never
  gives back the buffer space of leading spaces; and a line of 2048 characters keeps it reading for ever
  (`NameValue.NameAlone`, `NameValue.ReadSucceeds`). `SetVariableValue` loses a new variable whose name
  is the text of some other line (`NameValue.SetKeepsTogether`).
* `DNSMessageCreate` checks the name but not the labels of the domain (`DnsUpdate.ServerReads`).
* Status data of exactly the maximal size is serialized and then refused (`StatusMessages.Exchange`).

## Model

| member | source | states |
|---|---|---|
| Messages.CreateMessage | jni/gogoc-1_2-RELEASE/gogoc-messaging/src/message.cc:38-59 | A message is created exactly for data shorter than the limit; identifier, length and data are read back from its bytes, and the 16-bit length field never truncates. |
| Servents.FragmentCount | jni/gogoc-1_2-RELEASE/gogoc-messaging/src/servent.cc:555-601 | The number of packets is the least whose capacity of 1020 bytes each holds the data, and is at most 63 for any data a write accepts. |
| Servents.WireFormat | jni/gogoc-1_2-RELEASE/gogoc-messaging/src/servent.cc:555-601 | Packet i on the wire: header value, message and fragment number, its kind by its place, 1020 bytes in all but the last, and the bytes from 1020 i on. |
| Servents.Servent.NextPacket | jni/gogoc-1_2-RELEASE/gogoc-messaging/src/servent.cc:555-573 | Each turn of the write loop builds exactly the next packet of the closed-form fragmentation: its bytes, its kind, its message and fragment number. |
| Servents.Servent.WriteData | jni/gogoc-1_2-RELEASE/gogoc-messaging/src/servent.cc:516-615 | Whatever the channel does, a write puts a prefix of the packets of its data into the pipe; the message number advances modulo 64 exactly when all are there; over-long data changes nothing. How far it gets is pinned by WriteMeaning and WriteIsDetermined. |
| Servents.WriteMeaning | jni/gogoc-1_2-RELEASE/gogoc-messaging/src/servent.cc:537-615 | A write goes on while the channel is free or busy; it ends without an error when the last packet is in the pipe or at a short write, with an error exactly at a failed peek or write and with its code, and otherwise is still waiting when the channel has done no more. |
| Servents.WriteIsDetermined | jni/gogoc-1_2-RELEASE/gogoc-messaging/src/servent.cc:537-615 | That description leaves one outcome for every behaviour of the channel. |
| Servents.BusyOnlyDelays | jni/gogoc-1_2-RELEASE/gogoc-messaging/src/servent.cc:547-551 | A channel that is at most busy until the last packet is in the pipe lets the whole write through, using exactly those turns. |
| Servents.ReadData | jni/gogoc-1_2-RELEASE/gogoc-messaging/src/servent.cc:375-492 | A read stores and returns exactly what the packet-by-packet verdict function prescribes, consumes as many channel events, and leaves the rest of the buffer alone. What that is on any channel is pinned by Reassembly.ReadMeaning and Reassembly.ReadIsDetermined. |
| Reassembly.ReceiveFragment | jni/gogoc-1_2-RELEASE/gogoc-messaging/src/servent.cc:424-487 | After k packets of a message the next one is taken: more to come, or the whole data if it was the last. |
| Reassembly.ReadInvertsWrite | jni/gogoc-1_2-RELEASE/gogoc-messaging/src/servent.cc:392-487 | One read of the packets of one write, followed by anything at all, returns the data and consumes exactly those packets. |
| Reassembly.ReadsInvertWrites | jni/gogoc-1_2-RELEASE/gogoc-messaging/src/servent.cc:375-615 | k reads recover k writes in order, whatever follows. |
| Reassembly.SuccessIsOneMessage | jni/gogoc-1_2-RELEASE/gogoc-messaging/src/servent.cc:424-487 | On any stream, the packets a successful read took carry one message number, consecutive fragment numbers and a terminal kind on the last only, and the result is their concatenation. |
| Reassembly.OneMessageSucceeds | jni/gogoc-1_2-RELEASE/gogoc-messaging/src/servent.cc:424-487 | Conversely such packets, if they fit the buffer, are always read successfully. |
| Reassembly.NoSplicing | jni/gogoc-1_2-RELEASE/gogoc-messaging/src/servent.cc:424-487 | A read succeeds if and only if the stream starts with the packets of one message that fits the buffer: two messages are never spliced. |
| Reassembly.AtMost65Packets | jni/gogoc-1_2-RELEASE/gogoc-messaging/src/servent.cc:452-487 | No read consumes more than 65 packets, whatever arrives. |
| Reassembly.CutMessageIsRefused | jni/gogoc-1_2-RELEASE/gogoc-messaging/src/servent.cc:435-459 | A non-empty proper prefix of a message followed by another message is refused as desynchronized if the message number differs, and as disordered if it is the same. |
| Reassembly.ReadMeaning | jni/gogoc-1_2-RELEASE/gogoc-messaging/src/servent.cc:392-491 | On any channel a read takes packets that are well formed, in order and fit, until one ends its message, or until a packet is malformed, of another message, out of order or too long, each with its own code, or until a peek or read fails, which gives that failure's code; it returns the bytes of what it took, and waits only when nothing of this has come. |
| Reassembly.VerdictMeaning | jni/gogoc-1_2-RELEASE/gogoc-messaging/src/servent.cc:424-475 | The verdict on one packet after those taken, in terms of header fields and lengths. |
| Reassembly.ReadIsDetermined | jni/gogoc-1_2-RELEASE/gogoc-messaging/src/servent.cc:392-491 | That description leaves one outcome for every behaviour of the channel. |
| Transport.StepKeepsInv | jni/gogoc-1_2-RELEASE/gogoc-messaging/src/communicationsmgr.cc:401-491 | One step of the poster, either worker thread or the manager keeps the whole invariant: queue and histories, the packets on the wire, what the receiver has put together so far. |
| Transport.RunKeepsInv | jni/gogoc-1_2-RELEASE/gogoc-messaging/src/communicationsmgr.cc:217-287 | Every legal run keeps it. |
| Transport.WholeRunFifo | jni/gogoc-1_2-RELEASE/gogoc-messaging/src/communicationsmgr.cc:391-576 | In every interleaving, including failed writes and resets at any point, the messages handed to ProcessMessage on a connection are a prefix, whole and in order, of those PostMessage accepted. |
| Transport.NoRefusedPacket | jni/gogoc-1_2-RELEASE/gogoc-messaging/src/servent.cc:424-475 | In every run the receiver is never given a packet it refuses, be it for order, number or size; it stops for input and output errors only. |
| Transport.QueueMatchesSemaphore | jni/gogoc-1_2-RELEASE/gogoc-messaging/src/messagesender.cc:82-116 | In every run queue length + stray = semaphore + token with the sender + release still owed. The stray token, one at most, comes from a clean-up between a push and its release and stays until the next clean-up or a release at a full semaphore, which is lost; the semaphore never exceeds its maximum, the queue never 512; accepted = sent followed by queued; without the stray token the sender always finds a message. |
| Transport.ResetRestoresQueue | jni/gogoc-1_2-RELEASE/gogoc-messaging/src/messagesender.cc:105-116 | A reset empties queue, semaphore, pipe and both histories, both threads start anew, and the message number stays; the queue and its tokens agree afterwards if and only if no poster stood between its push and its release. |
| Transport.ResetRace | jni/gogoc-1_2-RELEASE/gogoc-messaging/src/communicationsmgr.cc:406-411 | A concrete run in which the reset falls there: the sender holds a token and the queue is empty, against its own assertion. |
| Transport.StatusIsLastWritten | jni/gogoc-1_2-RELEASE/gogoc-messaging/src/communicationsmgr.cc:213-287 | In every run the status is what the last step that wrote it makes it; connecting has been given up exactly after a failure past the threshold. |
| Transport.FailureIsSeen | jni/gogoc-1_2-RELEASE/gogoc-messaging/src/communicationsmgr.cc:217-287 | In every run the manager is connected with a failed worker thread if and only if the failure came before its Connected, which it has then written over the report; any other failure leads to a clean-up unless connecting has been given up. |
| Transport.OverwrittenStays | jni/gogoc-1_2-RELEASE/gogoc-messaging/src/communicationsmgr.cc:217-287 | From there no step but a further failure leads to a clean-up, and with a dead sender nothing more is sent. |
| Transport.ReportLost | jni/gogoc-1_2-RELEASE/gogoc-messaging/src/communicationsmgr.cc:141-152 | The shortest such run: the receiver thread fails while the manager is connecting. |
| Transport.IdleMeansDelivered | jni/gogoc-1_2-RELEASE/gogoc-messaging/src/communicationsmgr.cc:391-576 | When no thread has anything left to do, everything accepted has been delivered. |
| Transport.CanDeliverEverything | jni/gogoc-1_2-RELEASE/gogoc-messaging/src/communicationsmgr.cc:391-576 | From every reachable state with both threads alive there is a run without reset that delivers everything accepted: no deadlock. |
| Managers.ProgressMeaning | jni/gogoc-1_2-RELEASE/gogoc-messaging/src/servent.cc:537-615 | The packets a write puts in the pipe are the successful channel writes; a write that stops early without an error code stopped at a short write, and an error ends it. |
| Managers.CommunicationsManager.constructor | jni/gogoc-1_2-RELEASE/gogoc-messaging/src/communicationsmgr.cc:46-59 | A new manager is disconnected, with an empty queue and zero counters. |
| Managers.CommunicationsManager.SetState | jni/gogoc-1_2-RELEASE/gogoc-messaging/src/communicationsmgr.cc:345-351 | The sender is enabled exactly in the connected state. |
| Managers.CommunicationsManager.PostMessage | jni/gogoc-1_2-RELEASE/gogoc-messaging/src/messagesender.cc:82-89 | A message is queued with one release exactly when the sender is enabled and fewer than 512 are waiting; otherwise it is dropped. |
| Managers.CommunicationsManager.Reset | jni/gogoc-1_2-RELEASE/gogoc-messaging/src/messagesender.cc:105-116 | Queue and semaphore are empty together. |
| Managers.CommunicationsManager.SenderTurn | jni/gogoc-1_2-RELEASE/gogoc-messaging/src/communicationsmgr.cc:401-491 | One turn is the function SendersTurn of queue, semaphore, message number and what the channel does: a message leaves the queue exactly when all its packets are in the pipe; a turn cut short keeps it and ends the thread; a write still waiting keeps it and waits; incoming data gives the token back. |
| Managers.CommunicationsManager.ReceiverTurn | jni/gogoc-1_2-RELEASE/gogoc-messaging/src/communicationsmgr.cc:521-573 | Exactly the successful reads reach the processor and the counter; every failure disconnects; a read still waiting for packets leaves everything as it is. |
| Managers.WriteSteps | jni/gogoc-1_2-RELEASE/gogoc-messaging/src/communicationsmgr.cc:444-485 | The write steps of the transition system up to any packet of the message put exactly those packets into the pipe, whatever steps come next. |
| Managers.TurnIsItsSteps | jni/gogoc-1_2-RELEASE/gogoc-messaging/src/communicationsmgr.cc:401-491 | For every message, peek, mutex and channel behaviour, the sender steps of the transition system, taken without interruption, lead to the state the function SendersTurn gives, by which SenderTurn is specified: same queue, semaphore, message number, packets and end. |
| Managers.PostIsItsSteps | jni/gogoc-1_2-RELEASE/gogoc-messaging/src/messagesender.cc:82-89 | The check, push and release of the transition system, taken without interruption, do what PostMessage does, and the check lets a message through exactly when PostMessage does not drop it. |
| Sorting.ScanUp | jni/gogoc-1_2-RELEASE/gogoc-tsp/src/lib/deque.c:660-699 | The upward scan ends at the first element not below the key; false exactly if that would be beyond the slot after the range, which is below the key too. |
| Sorting.ScanDown | jni/gogoc-1_2-RELEASE/gogoc-tsp/src/lib/deque.c:660-699 | The downward scan stops at the last element not above the key. |
| Sorting.OneRound | jni/gogoc-1_2-RELEASE/gogoc-tsp/src/lib/deque.c:660-699 | One turn of the partition loop keeps small elements left, large ones right and the key in place, keeps a maximum at the end of the range there, and is one turn of the partition on values. The upward scan comes to the slot past the range in the first turn only, exactly when the key exceeds everything else, and otherwise stops inside the range; at the slot it ends if and only if the content does not fall below the key. |
| Sorting.Partition | jni/gogoc-1_2-RELEASE/gogoc-tsp/src/lib/deque.c:660-699 | Some turn's scan comes to the slot after the range if and only if the key strictly exceeds the rest of the range, and stays inside unless what stands there is smaller still; then the key ends between smaller and larger elements, the range is the partition on values of the old range and a permutation of it, and nothing else changes. |
| Sorting.KeyBoundsLeft | jni/gogoc-1_2-RELEASE/gogoc-tsp/src/lib/deque.c:660-699 | The placed key stands after the left part and bounds it: the left call never needs more. |
| Sorting.RightNeedsSame | jni/gogoc-1_2-RELEASE/gogoc-tsp/src/lib/deque.c:660-699 | Whatever the left call permuted, what stands after the range bounds the right part if and only if it bounds the whole range. |
| Sorting.RightKeepsMaxLast | jni/gogoc-1_2-RELEASE/gogoc-tsp/src/lib/deque.c:660-699 | A maximum at the end of the range is the maximum at the end of the right part, whatever the left call permuted. |
| Sorting.TopDecides | jni/gogoc-1_2-RELEASE/gogoc-tsp/src/lib/deque.c:660-699 | When the first key exceeds everything else, the slot after the range bounds the range if and only if it is not below that key. |
| Sorting.QuickSort | jni/gogoc-1_2-RELEASE/gogoc-tsp/src/lib/deque.c:660-699 | Under a total preorder, for any array: whether the slot high+1 is compared is the function Compares of the range alone, true if the first element strictly exceeds the others, false if the last is a maximum. The call stays within low..high+1 if and only if the slot is not compared or nothing in the range exceeds it, and then low..high ends sorted and a permutation of itself with nothing outside changed. |
| Sorting.ComparesLater | jni/gogoc-1_2-RELEASE/gogoc-tsp/src/lib/deque.c:660-699 | Sorting a range compares the slot after it if and only if the first key exceeds everything else or sorting the part right of the placed key does, whatever the left call permuted. |
| Deques.Queue.constructor | jni/gogoc-1_2-RELEASE/gogoc-tsp/src/lib/deque.c:127-135 | A new queue is a valid empty list. |
| Deques.Queue.First | jni/gogoc-1_2-RELEASE/gogoc-tsp/src/lib/deque.c:230-238 | The first datum, with the cursor moved to it, or nothing for an empty queue. |
| Deques.Queue.Last | jni/gogoc-1_2-RELEASE/gogoc-tsp/src/lib/deque.c:255-263 | The last datum, with the cursor moved to it, or nothing. |
| Deques.Queue.PushHead | jni/gogoc-1_2-RELEASE/gogoc-tsp/src/lib/deque.c:280-321 | The list of nodes gains a new first node with the datum, cursor on it, no longer sorted; without memory nothing changes. |
| Deques.Queue.PushTail | jni/gogoc-1_2-RELEASE/gogoc-tsp/src/lib/deque.c:339-378 | The same at the tail. |
| Deques.Queue.PopHead | jni/gogoc-1_2-RELEASE/gogoc-tsp/src/lib/deque.c:397-423 | Returns and removes the first datum, keeps the other nodes in order, drops the sorted flag; an empty queue gives nothing. |
| Deques.Queue.PopTail | jni/gogoc-1_2-RELEASE/gogoc-tsp/src/lib/deque.c:441-466 | The same at the tail. |
| Deques.Queue.Next | jni/gogoc-1_2-RELEASE/gogoc-tsp/src/lib/deque.c:486-494 | The datum after the cursor, which moves on, or nothing at the tail. |
| Deques.Queue.Previous | jni/gogoc-1_2-RELEASE/gogoc-tsp/src/lib/deque.c:513-521 | The datum before the cursor, which moves back, or nothing at the head. |
| Deques.Queue.FillIndex | jni/gogoc-1_2-RELEASE/gogoc-tsp/src/lib/deque.c:755-761 | The walk through the queue fills both indexes: position i is the i-th node and its datum. |
| Deques.Queue.WriteBack | jni/gogoc-1_2-RELEASE/gogoc-tsp/src/lib/deque.c:769-775 | The nodes take over the data index in order, which keeps both indexes in agreement. |
| Deques.Queue.SortData | jni/gogoc-1_2-RELEASE/gogoc-tsp/src/lib/deque.c:765-775 | Sorting the data index compares the word after it exactly when Compares holds of the data, and stays inside if and only if Compares fails or the word bounds the data; then writing it back sorts the queue, as a permutation, with both indexes valid. |
| Deques.Queue.BuildIndex | jni/gogoc-1_2-RELEASE/gogoc-tsp/src/lib/deque.c:742-783 | Fresh indexes; the sort stays inside under the same exact condition on data and word, and then they agree with the sorted queue, cursor at the head. |
| Deques.Queue.Sort | jni/gogoc-1_2-RELEASE/gogoc-tsp/src/lib/deque.c:725-786 | Same nodes, data permuted; the sort stays inside if and only if Compares fails of the data or the word after the index block bounds them, and then the data are sorted, both indexes agree and the cursor is at the head; if an allocation fails nothing changes but the sorted flag. |
| Deques.Queue.BSearch | jni/gogoc-1_2-RELEASE/gogoc-tsp/src/lib/deque.c:805-831 | On a sorted queue: a position with an equal element, or -1 if and only if there is none. |
| Deques.Queue.Seek | jni/gogoc-1_2-RELEASE/gogoc-tsp/src/lib/deque.c:850-868 | Succeeds if and only if an equal element exists and the index is there or can be built inside its block, and then leaves the cursor on a node that holds one. |
| Deques.Queue.Insert | jni/gogoc-1_2-RELEASE/gogoc-tsp/src/lib/deque.c:891-899 | The queue with the new datum added ends sorted, under the condition of the sort; when only the node cannot be allocated the call still succeeds, without the datum. |
| Deques.SortTwoOne | jni/gogoc-1_2-RELEASE/gogoc-tsp/src/lib/deque.c:742-765 | The queue 2, 1 is pushed and sorted: the word after the index block is compared, and the scan stays inside if and only if that word is at least 2. |
| Md5.PaddedIsWhole | jni/gogoc-1_2-RELEASE/gogoc-tsp/src/lib/md5c.c:196-211 | The padded message is a whole number of 64-byte blocks. |
| Md5.PaddedMeaning | jni/gogoc-1_2-RELEASE/gogoc-tsp/src/lib/md5c.c:196-211 | The padded message octet by octet: the message, 0x80, zeros, and its number of bits modulo 2^64 in the last eight octets, low word first; at most 72 octets more. |
| Md5.FoldSnoc | jni/gogoc-1_2-RELEASE/gogoc-tsp/src/lib/md5c.c:157-189 | One more full block is one more compression at the end of the chain. |
| Md5.FoldTail | jni/gogoc-1_2-RELEASE/gogoc-tsp/src/lib/md5c.c:157-189 | Fewer than 64 bytes after the last full block do not affect the chaining state. |
| Md5.CountAdds | jni/gogoc-1_2-RELEASE/gogoc-tsp/src/lib/md5c.c:165-168 | The two-word counter with its comparison carry holds eight times the length modulo 2^64. |
| Md5.IndexOfCount | jni/gogoc-1_2-RELEASE/gogoc-tsp/src/lib/md5c.c:162 | The block position read off the low counter word is the length modulo 64. |
| Md5.MD5Context.Init | jni/gogoc-1_2-RELEASE/gogoc-tsp/src/lib/md5c.c:138-148 | The context of the empty message. |
| Md5.MD5Context.AddBits | jni/gogoc-1_2-RELEASE/gogoc-tsp/src/lib/md5c.c:165-168 | Adds a chunk to the bit counter modulo 2^64. |
| Md5.MD5Context.FirstBlock | jni/gogoc-1_2-RELEASE/gogoc-tsp/src/lib/md5c.c:173-176 | Completing the buffered block continues the chain over the concatenated message. |
| Md5.MD5Context.FullBlocks | jni/gogoc-1_2-RELEASE/gogoc-tsp/src/lib/md5c.c:178-179 | The block loop, with its 32-bit guard, takes every full block of the concatenation and stops with fewer than 64 bytes left, for every chunk whose last full block ends at or before 2^32 - 64. |
| Md5.MD5Context.Update | jni/gogoc-1_2-RELEASE/gogoc-tsp/src/lib/md5c.c:157-189 | Feeding a chunk that fits turns the context of a message into the context of the message followed by the chunk: chaining state, both counters and kept bytes. |
| Md5.MD5Context.Pad | jni/gogoc-1_2-RELEASE/gogoc-tsp/src/lib/md5c.c:196-211 | Padding makes the context that of the message padded as in sections 3.1 and 3.2 of RFC 1321. |
| Md5.MD5Context.Final | jni/gogoc-1_2-RELEASE/gogoc-tsp/src/lib/md5c.c:219-229 | The digest is the one-shot digest of everything fed in: 16 octets, the four words of the last chaining state over the padded message in order, each least significant octet first; the context is wiped. |
| Md5.DigestMeaning | jni/gogoc-1_2-RELEASE/gogoc-tsp/src/lib/md5c.c:222-225 | The octets of the digest give back the words a, b, c and d of the last state. |
| Md5.Encode | jni/gogoc-1_2-RELEASE/gogoc-tsp/src/lib/md5c.c:67-77 | The octets of the words, least significant first. |
| Md5.Decode | jni/gogoc-1_2-RELEASE/gogoc-tsp/src/lib/md5c.c:85-92 | The words whose encoding the octets are. |
| Md5.EncodeIsInjective | jni/gogoc-1_2-RELEASE/gogoc-tsp/src/lib/md5c.c:67-92 | Different words have different octets, so decoding is the only inverse. |
| Md5.DigestChunks | jni/gogoc-1_2-RELEASE/gogoc-tsp/src/lib/md5c.c:338-353 | For every division of a message into chunks that fit the digest is the one-shot digest of the concatenation. |
| Md5.GuardWraps | jni/gogoc-1_2-RELEASE/gogoc-tsp/src/lib/md5c.c:178 | At each position the loop comes to: the guard holds wherever a full block is left, and where fewer than 64 bytes are left it still holds if and only if the chunk does not fit. |
| Md5.LoopStaysInside | jni/gogoc-1_2-RELEASE/gogoc-tsp/src/lib/md5c.c:173-181 | For a chunk that completes a block, the loop never reads past it if and only if it fits: its full blocks end at or before 2^32 - 64. |
| Md5.ChunksThatFit | jni/gogoc-1_2-RELEASE/gogoc-tsp/src/lib/md5c.c:162-181 | Every chunk of at most 2^32 - 64 bytes fits, and at a block boundary every chunk a 32-bit length can name. |
| Echo.TrailingMeaning | jni/gogoc-1_2-RELEASE/gogoc-tsp/src/net/icmp_echo_engine.c:681-792 | The consecutive-late count is the number of timeouts since the last on-time reply, or since the beginning if there was none. |
| Echo.CycleIsNoList | jni/gogoc-1_2-RELEASE/gogoc-tsp/src/net/icmp_echo_engine.c:1150-1151 | Two events that refer to each other end no list, whatever precedes them. |
| Echo.CountSent | jni/gogoc-1_2-RELEASE/gogoc-tsp/src/net/icmp_echo_engine.c:533-591 | A request keeps every counter equal to what happened. |
| Echo.CountTimedOut | jni/gogoc-1_2-RELEASE/gogoc-tsp/src/net/icmp_echo_engine.c:709-739 | So does an echo timeout. |
| Echo.CountOnTime | jni/gogoc-1_2-RELEASE/gogoc-tsp/src/net/icmp_echo_engine.c:709-739 | So does an on-time reply, whether it finds its event, cancels an earlier timeout or is a duplicate. |
| Echo.Conservation | jni/gogoc-1_2-RELEASE/gogoc-tsp/src/net/icmp_echo_engine.c:709-739 | At every step sent = outstanding + on time + late modulo 2^32, less the requests whose event could not be allocated. |
| Echo.Engine.constructor | jni/gogoc-1_2-RELEASE/gogoc-tsp/src/net/icmp_echo_engine.c:195-300 | A new engine satisfies the invariant with an empty list. |
| Echo.Engine.InsertEvent | jni/gogoc-1_2-RELEASE/gogoc-tsp/src/net/icmp_echo_engine.c:1124-1156 | The event is appended if and only if it is due after all others; otherwise it and the first event not due earlier refer to each other. |
| Echo.Engine.RemoveEvent | jni/gogoc-1_2-RELEASE/gogoc-tsp/src/net/icmp_echo_engine.c:1171-1197 | Removes the first event with the number and keeps the list, or reports that there is none. |
| Echo.Engine.Unlink | jni/gogoc-1_2-RELEASE/gogoc-tsp/src/net/icmp_echo_engine.c:1171-1197 | Taking the k-th event out leaves the others in order, as a null-terminated list. |
| Echo.Engine.DoSend | jni/gogoc-1_2-RELEASE/gogoc-tsp/src/net/icmp_echo_engine.c:533-591 | One request adds one event due one timeout later, with the 16-bit number, and keeps order, acyclicity and counters. |
| Echo.Engine.DoRead | jni/gogoc-1_2-RELEASE/gogoc-tsp/src/net/icmp_echo_engine.c:812-877 | A closed socket means exactly that the engine was stopped and receive returned -1 or the descriptor was bad; the same on a running engine is an error; an interrupted wait is indistinguishable from an expired one; a packet gives its verdict. |
| Echo.Engine.EarlyExactly | jni/gogoc-1_2-RELEASE/gogoc-tsp/src/net/icmp_echo_engine.c:681-716 | A turn counts the soonest request late before its due time if and only if the request is due before the next is to be sent and select came back without a packet before the time it was given; if select itself is never early, only a signal can do that. |
| Echo.Engine.MissedRounds | jni/gogoc-1_2-RELEASE/gogoc-tsp/src/net/icmp_echo_engine.c:392-430 | As many unanswered rounds in a row as the threshold still allows end the processing with a general timeout. |
| Echo.Engine.AnsweredRounds | jni/gogoc-1_2-RELEASE/gogoc-tsp/src/net/icmp_echo_engine.c:392-430 | However many rounds there are, if each request is answered on time the processing goes on, with nothing outstanding and the count at zero. |
| Echo.Engine.TimeOutSoonest | jni/gogoc-1_2-RELEASE/gogoc-tsp/src/net/icmp_echo_engine.c:709-739 | Takes the soonest event off and counts it late. |
| Echo.Engine.AcceptReply | jni/gogoc-1_2-RELEASE/gogoc-tsp/src/net/icmp_echo_engine.c:709-739 | Resets the consecutive count, closes the first open request of that number, and cancels a timeout exactly when there is none. |
| Echo.Engine.Dispatch | jni/gogoc-1_2-RELEASE/gogoc-tsp/src/net/icmp_echo_engine.c:700-780 | What each verdict does, stated on counts, open requests and history themselves: an on-time reply is recorded as one, resets the count and takes the first open request of its number with it; an expired wait takes the soonest off if it was due in time; a late, bad or foreign packet changes none of them; errors alone end the engine with an error. |
| Echo.Engine.DispatchMeaning | jni/gogoc-1_2-RELEASE/gogoc-tsp/src/net/icmp_echo_engine.c:700-780 | The same of the engine on plain values. |
| Echo.Engine.ReadTurn | jni/gogoc-1_2-RELEASE/gogoc-tsp/src/net/icmp_echo_engine.c:681-792 | One turn does what its read asks for, and reports a general timeout if and only if the consecutive count has reached the threshold, which it never exceeds; after an on-time reply the count is zero and the turn succeeds. |
| Echo.Engine.DoReadWrap | jni/gogoc-1_2-RELEASE/gogoc-tsp/src/net/icmp_echo_engine.c:661-796 | The same for the whole read loop: every turn is taken, until time is up or the engine stops. |
| Echo.Engine.LoopMeaning | jni/gogoc-1_2-RELEASE/gogoc-tsp/src/net/icmp_echo_engine.c:681-796 | The loop's states one by one: another turn as long as there is time left and the engine goes on, none as soon as that is not so. |
| Echo.Engine.RunRound | jni/gogoc-1_2-RELEASE/gogoc-tsp/src/net/icmp_echo_engine.c:392-430 | One round is one request and the reading after it; a failed request ends the engine with its own error. |
| Echo.Engine.RoundMeaning | jni/gogoc-1_2-RELEASE/gogoc-tsp/src/net/icmp_echo_engine.c:392-430 | A round on plain values: the request with its number and due time, the three ways it ends at once, and otherwise the turns after it. |
| Echo.Engine.RoundsMeaning | jni/gogoc-1_2-RELEASE/gogoc-tsp/src/net/icmp_echo_engine.c:392-430 | The rounds one by one: another one as long as nothing has gone wrong, the engine goes on and the limit is not reached. |
| Echo.Engine.LimitIsKept | jni/gogoc-1_2-RELEASE/gogoc-tsp/src/net/icmp_echo_engine.c:392-393 | With a limit no more requests than that are sent, and processing that ends regularly without being stopped has sent as many. |
| Echo.Engine.Process | jni/gogoc-1_2-RELEASE/gogoc-tsp/src/net/icmp_echo_engine.c:355-437 | Under any behaviour of clock, socket, memory and stop, the engine keeps a strictly sorted acyclic list, exact counters and a history in which nothing is answered or timed out that was not outstanding, and returns a general timeout if and only if the timeouts since the last on-time reply equal the threshold; counters, open requests, history and result are those of the same rounds taken one by one on plain values. |
| KeepAlive.KaEngine.constructor | jni/gogoc-1_2-RELEASE/gogoc-tsp/src/net/net_ka.c:103-107 | The keepalive engine runs the echo engine without a request limit, with 5000 ms and three consecutive timeouts. |
| KeepAlive.KaEngine.RunThread | jni/gogoc-1_2-RELEASE/gogoc-tsp/src/net/net_ka.c:384-438 | The final status is success, timeout or error as the result is; it is a timeout if and only if three timeouts were counted since the last on-time reply; history and result are those of the rounds taken one by one. |
| KeepAlive.KaEngine.StartLate | jni/gogoc-1_2-RELEASE/gogoc-tsp/src/net/net_ka.c:159-174 | With three requests in a row unanswered and the thread ended before the starter writes, the result is a general timeout and the status says ongoing. |
| KeepAlive.StatusHistory | jni/gogoc-1_2-RELEASE/gogoc-tsp/src/net/net_ka.c:150-177 | What the status is in every interleaving of the starting thread and the keepalive thread, whose history keeps to the order of events that every history of the echo engine keeps to. |
| KeepAlive.TimeoutIsReal | jni/gogoc-1_2-RELEASE/gogoc-tsp/src/net/net_ka.c:239-252 | A timeout status, whenever it is read and in every interleaving, means that exactly three echo timeouts have been counted since the last on-time reply. |
| KeepAlive.StatusTellsResult | jni/gogoc-1_2-RELEASE/gogoc-tsp/src/net/net_ka.c:159-174 | Once both threads have written, the status is success, timeout or error as the result is if and only if the starting thread did not write last. |
| KeepAlive.TimeoutLost | jni/gogoc-1_2-RELEASE/gogoc-tsp/src/net/net_ka.c:159-174 | Every history in that order, those of the echo engine among them, that ends in a general timeout can end with the starting thread overwriting it. |
| KeepAlive.MissesLost | jni/gogoc-1_2-RELEASE/gogoc-tsp/src/net/net_ka.c:159-174 | Three requests that each time out before the next are such a history. |
| ByteFifo.SmallAppendIsSafe | jni/gogoc-1_2-RELEASE/gogoc-tsp/src/lib/buffer.c:81-123 | While twice the held bytes plus three times the new ones stay within the size limit less the growth step, no append ends the process, wherever the data lies and however the buffer grew. |
| ByteFifo.Buffer.constructor | jni/gogoc-1_2-RELEASE/gogoc-tsp/src/lib/buffer.c:32-41 | An empty buffer of 4096 bytes. |
| ByteFifo.Buffer.Clear | jni/gogoc-1_2-RELEASE/gogoc-tsp/src/lib/buffer.c:60-64 | Empties it. |
| ByteFifo.Buffer.AppendSpace | jni/gogoc-1_2-RELEASE/gogoc-tsp/src/lib/buffer.c:81-123 | The restart loop ends; it gives len bytes right behind the unchanged contents, moves and grows the block exactly when the space demands it, and ends the process if and only if the stated condition on length, offset, end and size holds. |
| ByteFifo.Buffer.MoveToFront | jni/gogoc-1_2-RELEASE/gogoc-tsp/src/lib/buffer.c:107-112 | Compaction keeps the contents. |
| ByteFifo.Buffer.Reallocate | jni/gogoc-1_2-RELEASE/gogoc-tsp/src/lib/buffer.c:119-120 | Growth keeps the contents. |
| ByteFifo.Buffer.Append | jni/gogoc-1_2-RELEASE/gogoc-tsp/src/lib/buffer.c:68-73 | The contents are followed by the data, or unchanged if the process ends. |
| ByteFifo.Buffer.Len | jni/gogoc-1_2-RELEASE/gogoc-tsp/src/lib/buffer.c:127-130 | The number of bytes held. |
| ByteFifo.Buffer.Get | jni/gogoc-1_2-RELEASE/gogoc-tsp/src/lib/buffer.c:134-142 | Takes the first bytes in order; a request for more than there is changes nothing. |
| ByteFifo.Buffer.Consume | jni/gogoc-1_2-RELEASE/gogoc-tsp/src/lib/buffer.c:146-153 | Drops the first bytes, or nothing if there are too few. |
| ByteFifo.Buffer.ConsumeEnd | jni/gogoc-1_2-RELEASE/gogoc-tsp/src/lib/buffer.c:157-164 | Drops the last bytes, or nothing if there are too few. |
| ByteFifo.Buffer.Perform | jni/gogoc-1_2-RELEASE/gogoc-tsp/src/lib/buffer.c:60-164 | Any run of operations does to the buffer what it does to a byte sequence and hands out the same bytes. |
| ByteFifo.FirstInFirstOut | jni/gogoc-1_2-RELEASE/gogoc-tsp/src/lib/buffer.c:68-142 | Under appends and gets, what was taken followed by what is held is what was there followed by what was appended. |
| Records.PutInt | jni/gogoc-1_2-RELEASE/gogoc-tsp/src/lib/bufaux.c:143-149 | Four octets, most significant first. |
| Bytes.OctetsMeaning | jni/gogoc-1_2-RELEASE/gogoc-tsp/src/lib/bufaux.c:135-149 | What the octets of a stored word or half word count for, in network order and little-endian. |
| Records.GetInt | jni/gogoc-1_2-RELEASE/gogoc-tsp/src/lib/bufaux.c:135-141 | The integer those octets hold; with fewer than four left nothing is consumed. |
| Records.PutOctet | jni/gogoc-1_2-RELEASE/gogoc-tsp/src/lib/bufaux.c:232-237 | The value cut to eight bits. |
| Records.GetOctet | jni/gogoc-1_2-RELEASE/gogoc-tsp/src/lib/bufaux.c:221-227 | The next octet as 0 to 255. |
| Records.PutString | jni/gogoc-1_2-RELEASE/gogoc-tsp/src/lib/bufaux.c:201-205 | Length and data, for up to 1 MiB and while there is room; longer data always ends the process. |
| Records.GetString | jni/gogoc-1_2-RELEASE/gogoc-tsp/src/lib/bufaux.c:174-196 | The string with a NUL behind it; a length above 256 KiB ends the process, and one beyond the data loses only the length. |
| Records.PutCString | jni/gogoc-1_2-RELEASE/gogoc-tsp/src/lib/bufaux.c:208-216 | The characters before the NUL as a string; a null argument ends the process. |
| Records.GetAll | jni/gogoc-1_2-RELEASE/gogoc-tsp/src/lib/bufaux.c:135-227 | Getting records of given kinds returns what the reference parse of the bytes prescribes. |
| Records.PutAll | jni/gogoc-1_2-RELEASE/gogoc-tsp/src/lib/bufaux.c:143-237 | Putting records appends their encodings in order, and always succeeds while there is room. |
| Records.OneRoundTrip | jni/gogoc-1_2-RELEASE/gogoc-tsp/src/lib/bufaux.c:135-237 | One record put and taken, whatever follows it. |
| Records.RoundTrip | jni/gogoc-1_2-RELEASE/gogoc-tsp/src/lib/bufaux.c:135-236 | A list of records comes back in order with the rest untouched if and only if no string is longer than 256 KiB; otherwise reading ends the process. |
| Records.Exchange | jni/gogoc-1_2-RELEASE/gogoc-tsp/src/lib/buffer.c:81-142 | The same through the buffer itself, across compaction and growth. |
| NameValue.TrimMeaning | jni/gogoc-1_2-RELEASE/gogoc-config/src/namevalueparser.cc:48-57 | Trimming takes spaces and tabs off both ends, all of them and nothing else. |
| NameValue.NameValueParser.GetLine | jni/gogoc-1_2-RELEASE/gogoc-config/src/namevalueparser.cc:150 | The next line, cut at 2047 characters, the position after it, and whether the stream has ended or failed. |
| NameValue.NameValueParser.TakeLine | jni/gogoc-1_2-RELEASE/gogoc-config/src/namevalueparser.cc:153-184 | A line becomes an empty line, a comment or a trimmed pair; it is refused exactly when the tokenizer finds no name. |
| NameValue.NameValueParser.ReadOneLine | jni/gogoc-1_2-RELEASE/gogoc-config/src/namevalueparser.cc:148-185 | One turn of the loop is one step of the reference reading. |
| NameValue.NameValueParser.ReadConfigurationData | jni/gogoc-1_2-RELEASE/gogoc-config/src/namevalueparser.cc:123-192 | A file that opens is read as the reference reading of its lines; one that does not leaves the data alone. |
| NameValue.NameValueParser.AddNameValue | jni/gogoc-1_2-RELEASE/gogoc-config/src/namevalueparser.cc:350-372 | The trimmed pair is added to list and map unless its name is empty; an older value is replaced and all others stay. |
| NameValue.NameValueParser.AddEmptyLine | jni/gogoc-1_2-RELEASE/gogoc-config/src/namevalueparser.cc:304-308 | An empty line joins the list. |
| NameValue.NameValueParser.AddComment | jni/gogoc-1_2-RELEASE/gogoc-config/src/namevalueparser.cc:326-332 | A comment joins the list. |
| NameValue.NameValueParser.WriteConfigurationData | jni/gogoc-1_2-RELEASE/gogoc-config/src/namevalueparser.cc:238-274 | The file is the printed lines in order, each ended by a newline. |
| NameValue.NameValueConfig.GetVariableValue | jni/gogoc-1_2-RELEASE/gogoc-config/src/namevalueconfig.cc:91-103 | The value the variable has, or an empty one. |
| NameValue.NameValueConfig.SetVariableValue | jni/gogoc-1_2-RELEASE/gogoc-config/src/namevalueconfig.cc:126-143 | The name has exactly the value given afterwards, every other keeps its own or none, and the list is as it was, with the name at its end unless its text occurs. |
| NameValue.NameValueConfig.RemoveVariable | jni/gogoc-1_2-RELEASE/gogoc-config/src/namevalueconfig.cc:163-170 | The name has neither value nor line afterwards; every other value is kept and all other lines stay in order. |
| NameValue.SetKeepsTogether | jni/gogoc-1_2-RELEASE/gogoc-config/src/namevalueconfig.cc:134-142 | Setting keeps listed names and valued names the same if and only if the name has a value already or its text occurs nowhere in the list. |
| NameValue.LostVariable | jni/gogoc-1_2-RELEASE/gogoc-config/src/namevalueconfig.cc:134-142 | Otherwise the new variable is in memory and is never written. |
| NameValue.NamelessLost | jni/gogoc-1_2-RELEASE/gogoc-config/src/namevalueconfig.cc:134-142 | The shortest case: a variable without a name after one empty line. |
| NameValue.EraseKeepsTogether | jni/gogoc-1_2-RELEASE/gogoc-config/src/namevalueconfig.cc:163-170 | Removing keeps them the same. |
| NameValue.WithoutMeaning | jni/gogoc-1_2-RELEASE/gogoc-config/src/namevalueconfig.cc:163-170 | Removing lines equal to one leaves all others, as often as they were there and in their order. |
| NameValue.LastEditCounts | jni/gogoc-1_2-RELEASE/gogoc-config/src/namevalueconfig.cc:91-170 | After any run of settings and removals a caller gets what was last set, and nothing after a removal. |
| NameValue.EditKeepsClean | jni/gogoc-1_2-RELEASE/gogoc-config/src/namevalueconfig.cc:126-170 | Setting and removing keep the data in the form the file format allows. |
| NameValue.EditsKeepClean | jni/gogoc-1_2-RELEASE/gogoc-config/src/namevalueconfig.cc:126-170 | So does any run of them. |
| NameValue.RefusedExactly | jni/gogoc-1_2-RELEASE/gogoc-config/src/namevalueparser.cc:173-184 | A line is refused if and only if it holds nothing but equals signs. |
| NameValue.ClassifyMeaning | jni/gogoc-1_2-RELEASE/gogoc-config/src/namevalueparser.cc:153-184 | What a line is, character by character: empty, a comment if it starts with #, and otherwise the name up to the first equals sign behind those that lead it, and all that follows as its value. |
| NameValue.NameAlone | jni/gogoc-1_2-RELEASE/gogoc-config/src/namevalueparser.cc:119-120 | A line without an equals sign is a name with an empty value, not the error its description announces. |
| NameValue.ReadSucceeds | jni/gogoc-1_2-RELEASE/gogoc-config/src/namevalueparser.cc:148-184 | A file is read to its end if and only if each line fits what the spaces skipped on all earlier lines have left of the 2048-character buffer, and none is refused. |
| NameValue.ReadMeaning | jni/gogoc-1_2-RELEASE/gogoc-config/src/namevalueparser.cc:147-186 | Reading takes in line after line up to an exactly stated one: the end, the first that is refused, overruns the buffer or never ends; the data are the entries of those lines. |
| NameValue.LastLineCounts | jni/gogoc-1_2-RELEASE/gogoc-config/src/namevalueparser.cc:350-372 | A variable has the value of the last line that sets it. |
| NameValue.FileIsClean | jni/gogoc-1_2-RELEASE/gogoc-config/src/namevalueparser.cc:147-186 | Reading any file leaves listed and valued names the same, with names, values and comments in the form the format allows. |
| NameValue.LinesOfJoined | jni/gogoc-1_2-RELEASE/gogoc-config/src/namevalueparser.cc:244-274 | The lines of a written file are the printed lines and one empty line. |
| NameValue.LinesMeaning | jni/gogoc-1_2-RELEASE/gogoc-config/src/namevalueparser.cc:148-150 | Conversely the lines of any file, each with a newline behind it, are the file and one more newline. |
| NameValue.ReadPrinted | jni/gogoc-1_2-RELEASE/gogoc-config/src/namevalueparser.cc:147-186 | Reading printed lines rebuilds list and map, or never ends if a line is too long. |
| NameValue.WriteThenRead | jni/gogoc-1_2-RELEASE/gogoc-config/src/namevalueparser.cc:238-274 | Written data can be read back if and only if every line is shorter than 2048 characters, and is the same list with fresh time stamps plus one empty line, and the same map, if and only if besides no name starts with #. |
| NameValue.EditedFileReadsBack | jni/gogoc-1_2-RELEASE/gogoc-config/src/namevalueparser.cc:123-287 | The same for any file, read and then edited at will. |
| NameValue.SetSurvivesFile | jni/gogoc-1_2-RELEASE/gogoc-config/src/namevalueconfig.cc:91-170 | Under the same conditions a caller gets what was last set also after the file has been written and read again. |
| DnsUpdate.PutLabels | jni/gogoc-1_2-RELEASE/gogoc-tsp/src/lib/dns.c:85-101 | The label loop writes every non-empty stretch between dots behind its length. |
| DnsUpdate.NameEncode | jni/gogoc-1_2-RELEASE/gogoc-tsp/src/lib/dns.c:70-112 | A name of at most 253 characters is written as its labels and an end or a reference back; anything else is refused. |
| DnsUpdate.MessageCreate | jni/gogoc-1_2-RELEASE/gogoc-tsp/src/lib/dns.c:128-224 | Succeeds if and only if the arguments pass the length checks; the length prefix is the total less 2, the total at most 301, and the message is header, zone, owner and record. |
| DnsUpdate.DecodedIsShort | jni/gogoc-1_2-RELEASE/gogoc-tsp/src/lib/dns.c:85-101 | Any name a server can read consists of labels of 1 to 63 octets. |
| DnsUpdate.LabelsDecode | jni/gogoc-1_2-RELEASE/gogoc-tsp/src/lib/dns.c:85-101 | Encoded labels of that size decode to themselves by section 3.1 of RFC 1035. |
| DnsUpdate.OwnerDecodes | jni/gogoc-1_2-RELEASE/gogoc-tsp/src/lib/dns.c:103-105 | The owner name decodes to its labels followed by the zone, through the reference to offset 12 (section 4.1.4 of RFC 1035). |
| DnsUpdate.ServerReads | jni/gogoc-1_2-RELEASE/gogoc-tsp/src/lib/dns.c:143-221 | A server reads the zone, the owner and the record that were asked for if and only if every label of the domain has at most 63 octets, which nothing checks. |
| DnsUpdate.LongLabelLost | jni/gogoc-1_2-RELEASE/gogoc-tsp/src/lib/dns.c:85-101 | The shortest case: a domain of one letter 64 times is accepted and not read as asked. |
| DnsUpdate.LabelsSpellName | jni/gogoc-1_2-RELEASE/gogoc-tsp/src/lib/dns.c:85-101 | The labels of a well dotted name, joined by dots, are the name. |
| DnsUpdate.LabelsMeaning | jni/gogoc-1_2-RELEASE/gogoc-tsp/src/lib/dns.c:85-101 | The labels of any name, wherever its dots are: those before a dot followed by those after it. |
| StatusMessages.PutDevices | jni/gogoc-1_2-RELEASE/gogoc-messaging/src/servermsgsender.cc:309-331 | The walk through the list appends each name, its NUL and its status. |
| StatusMessages.SendStatusInfo | jni/gogoc-1_2-RELEASE/gogoc-messaging/src/servermsgsender.cc:283-340 | The message holds the three feature codes and the list in order. |
| StatusMessages.BuildMappingStatuses | jni/gogoc-1_2-RELEASE/gogoc-messaging/src/clientmsgtranslator.cc:358-378 | The recursion rebuilds the list the bytes prescribe and ends with the cursor exactly on the data length. |
| StatusMessages.TranslateStatusInfo | jni/gogoc-1_2-RELEASE/gogoc-messaging/src/clientmsgtranslator.cc:391-437 | The three codes and the list of the bytes, or failure where the original would read past them. |
| StatusMessages.DevicesRoundTrip | jni/gogoc-1_2-RELEASE/gogoc-messaging/src/clientmsgtranslator.cc:358-378 | The list of devices comes back in order, null names as empty ones. |
| StatusMessages.StatusRoundTrip | jni/gogoc-1_2-RELEASE/gogoc-messaging/src/servermsgsender.cc:294-334 | Send, then translate: same codes and list. |
| StatusMessages.ParsedStatusSpells | jni/gogoc-1_2-RELEASE/gogoc-messaging/src/clientmsgtranslator.cc:391-420 | Conversely, data that translates is what would be sent for the result: nothing is skipped, read twice or left over. |
| StatusMessages.Exchange | jni/gogoc-1_2-RELEASE/gogoc-messaging/src/servermsgsender.cc:283-340 | Both ends of one message on linked lists; data that fills the message to the last octet is refused. |
| StatusMessages.SendTunnelInfo | jni/gogoc-1_2-RELEASE/gogoc-messaging/src/servermsgsender.cc:111-209 | The tunnel fields in their order. |
| StatusMessages.TranslateTunnelInfo | jni/gogoc-1_2-RELEASE/gogoc-messaging/src/clientmsgtranslator.cc:187-237 | The fields of the bytes, and the position after them. |
| StatusMessages.TunnelRoundTrip | jni/gogoc-1_2-RELEASE/gogoc-messaging/src/servermsgsender.cc:111-209 | Every serialized field arrives and nothing is left over. |
| StatusMessages.ParsedTunnelSpells | jni/gogoc-1_2-RELEASE/gogoc-messaging/src/clientmsgtranslator.cc:187-237 | Conversely, translated fields spell the data. |
| EndToEnd.ReportArrives | jni/gogoc-1_2-RELEASE/gogoc-messaging/src/clientmsgtranslator.cc:76-116 | A report posted as a message is recovered by the client from the bytes of the message. |
| EndToEnd.ReportsArriveInOrder | jni/gogoc-1_2-RELEASE/gogoc-messaging/src/communicationsmgr.cc:391-576 | In every interleaving the i-th message handed to the client gives back the i-th report accepted on the connection. |
| Base64.GroupDigits | jni/gogoc-1_2-RELEASE/gogoc-tsp/src/lib/base64.c:189-193 | The shifted and masked bit fields are the four base-64 digits of the 24-bit group. |
| Base64.GroupOctets | jni/gogoc-1_2-RELEASE/gogoc-tsp/src/lib/base64.c:137-142 | The shifted values cut to eight bits are the three octets of the group. |
| Base64.EncodeLenFits | jni/gogoc-1_2-RELEASE/gogoc-tsp/src/lib/base64.c:168-171 | The 32-bit length does not overflow if and only if there are at most 1610612733 octets. |
| Base64.EncodeBinary | jni/gogoc-1_2-RELEASE/gogoc-tsp/src/lib/base64.c:181-212 | The encoder writes exactly base64encode_len octets: the encoding of section 4 of RFC 4648 and a NUL. |
| Base64.EncodingMeaning | jni/gogoc-1_2-RELEASE/gogoc-tsp/src/lib/base64.c:186-207 | Character k of the encoding: which six bits of which octets, or padding. |
| Base64.CountDigits | jni/gogoc-1_2-RELEASE/gogoc-tsp/src/lib/base64.c:129-130 | The number of leading digits. |
| Base64.DecodeBinary | jni/gogoc-1_2-RELEASE/gogoc-tsp/src/lib/base64.c:120-163 | For any terminated input the result is the exact number of octets written, leaves room for a NUL within base64decode_len, and the octets are those of the leading digits. |
| Base64.DecodingMeaning | jni/gogoc-1_2-RELEASE/gogoc-tsp/src/lib/base64.c:134-160 | Octet k of the decoding: which bits of which two digits. |
| Base64.Decode | jni/gogoc-1_2-RELEASE/gogoc-tsp/src/lib/base64.c:108-115 | The same with a NUL behind. |
| Base64.RoundTrip | jni/gogoc-1_2-RELEASE/gogoc-tsp/src/lib/base64.c:120-212 | Decoding the encoding of any octets, whatever follows it, returns them. |
| Checksum.SumIsOnesSum | jni/gogoc-1_2-RELEASE/gogoc-tsp/src/net/net_cksm.c:22-29 | The plain sum, reduced, is the sum with end-around carry of section 1 of RFC 1071. |
| Checksum.FoldsReduce | jni/gogoc-1_2-RELEASE/gogoc-tsp/src/net/net_cksm.c:30-32 | The two folds and the complement give the complement of that sum, for every sum a signed 32-bit integer can hold. |
| Checksum.InCksum | jni/gogoc-1_2-RELEASE/gogoc-tsp/src/net/net_cksm.c:15-34 | The result is the complement of the one's complement sum. |
| Checksum.TotalBound | jni/gogoc-1_2-RELEASE/gogoc-tsp/src/net/net_cksm.c:22-29 | Up to 65536 octets the signed sum never overflows. |
| Checksum.OverflowIsPossible | jni/gogoc-1_2-RELEASE/gogoc-tsp/src/net/net_cksm.c:22-29 | 65538 octets of all ones overflow it. |
| Checksum.StoredChecksumVerifies | jni/gogoc-1_2-RELEASE/gogoc-tsp/src/net/net_cksm.c:15-34 | Storing the result in an aligned word that was zero makes the checksum zero. |
| Checksum.SameOctets | jni/gogoc-1_2-RELEASE/gogoc-tsp/src/net/net_cksm.c:15-34 | Hosts of either byte order store the same two octets. |

## Left out

- Java code, user interface, sockets, pipes, thread creation, clocks, logs, `gogocconfig.cc`, `config.c` and `cli.c`: input and output or plumbing.
- `MD5Transform`: any function of a state and a block; the digest theorems hold for all of them.
- Md5.MD5Context.Update: nothing is said about the context after a chunk that does not fit, because the loop then reads past it; `Md5.LoopStaysInside` says exactly which chunks those are.
- Transport.WholeRunFifo: a sender that takes the stray token of `Transport.ResetRace` and finds the queue empty has undefined behaviour in the original, and no step of the model continues from there.
- Deques.Queue.Sort: the index arrays belong to the queue, not to all queues as in the original; once a scan has left the index block nothing more is followed, and only the nodes and their data as a whole are promised.
- `Q_Start`, `Q_End`, `Q_Empty`, `Q_Size` and `Q_Get`: they read one field.
- `Q_DelCur`, `Q_Put` and `Q_Find`: the first does not relink the neighbours of a middle node, the second leaves a sorted queue with a stale index, the third can compare a null datum.
- Echo.Engine.Process: keepalive mode only; the delay and statistics of the other mode, the ICMP packet format, and an allocation failure of the engine itself are not modelled, and a decoded packet is given as a verdict.
- Insertion before an existing event: stated as it is in `Echo.Engine.InsertEvent`; no run is followed beyond it.
- ByteFifo.Buffer.AppendSpace: `realloc` is taken to succeed; its failure is not checked by the original. After the process has ended only the contents are specified.
- `buffer_put_bignum` and `buffer_get_bignum`: need the number routines of OpenSSL.
- NameValue.WriteThenRead: data as reading and clean edits produce it; names, values and comments that the file format cannot hold are outside it. The mode that keeps only the pairs, and partly written files, are not modelled.
- DnsUpdate.MessageCreate: address text has been converted by the caller, and the identifier is a parameter.
- StatusMessages.SendStatusInfo: the information must fit the data of a message; beyond it the original writes past its buffer.
- StatusMessages.TunnelRoundTrip: the DNS address of the tunnel information is not part of the bytes and is not modelled.
- Broker list and plain status message: the former reads distances after the first at a doubled offset, the latter is two words.
- Base64.EncodeBinary: lengths whose result would not fit a signed 32-bit integer are covered only by `Base64.EncodeLenFits`.
- `IsAddressInPrefix`, lease checks, address conversion: not modelled.
