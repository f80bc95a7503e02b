# Network core: models and proofs

This project models the parts of the repository where a small mistake would be
hard to see, and proves what they are for. Each module stands beside the source
file it models and has the source's form: objects whose methods update fields,
loops over queues, atomic steps of many threads.

**KCP, the reliable-UDP protocol** (`Serial`, `Kcp*`). `KcpModel` gives every
operation of the control block as a function, in two arithmetics: the program's
32-bit words compared by signed difference, and unbounded integers. `KcpClass` is
the program itself, an object with mutable queues, walking loops and a buffer
filled through a moving position; each method is proved to compute the function of
the same name, and hands over exactly the bytes the model's packing gives. The
fields of the control block are grouped in three records (sending half, receiving
half, the rest). `KcpSystem` puts two endpoints beside a network that is the set of
all datagrams ever sent, any of which may be delivered at any time, any number of
times, or never. `KcpTheorems` proves end-to-end safety for every run.

The program identifies segments by 32-bit numbers, so a datagram delivered again
after half the number space has been used up can be taken for a new one
(`StaleSegmentAccepted`). The run theorems therefore assume that a datagram is not
delivered once its numbers lie 2^31 behind; `AcceptanceExact` says exactly when that
matters, and `YoungEnabled` that it never does in the first 2^31 - 2^16 segments. A
segment may be acknowledged while `rcv_queue` is full, before `rcv_nxt` passes it, so
the two sides can be a whole window apart; what is in flight is bounded by the window
the peer announces, 16 bits in the header, whatever the sending window is set to
(`KcpSystem.Narrow`). Receive windows are at most 65535, for the same header field, and
windows and MTU are set before anything is sent.

**The lock-free queue** (`FreeList`, `TicketQueue`, `LightSemaphore`). Each is a
state machine of single memory accesses, interleaved in any order by any number of
threads under sequential consistency. What a node, a ticket or an index has become
is recorded beside the state for the proof; no step reads it.

**Timers** (`TimerHeap`). Nodes linked by pointers, a heap walked by the bits of a
position, and the timers on top of it. `heap_remove` is proved for a node whose key is
already wrong and that may no longer be compared, which is how `Timer::stop` and the
destructor call it.

**Streams and parsers**. `Framing` goes from `sendMsg` through the send queue and
any splitting of the byte stream to `onMsg`. `Chunked` has the chunked-body states of
the HTTP parser, `HttpUrl` the two URL automata and `HttpUrlForm` the URLs they take,
`Json` the writer and the reader, `Sha1` the streaming digest against RFC 3174.

Some things the code does that a reader of its comments would not expect, kept as
they are: a head announcing 2^31 bytes or more makes `on_msgbuffer` repeat the same
turn for ever (`Framing.EndsExactly`, `Framing.HugeHead`), a message without a body
is delivered only when another byte comes, empty packets silence the send queue when
they are all it could submit (`Framing.SilentBatch`, `Framing.SendQueue.Write`), a
call of `http_parser_execute` with no bytes inside a body ends it with an error
(`Chunked.AnySplit`, `Chunked.EmptyFirst`), the hexadecimal table gives bytes above
127 the value 0, a URL with a fragment directly behind its host is refused
(`HttpUrlForm.FragmentBehindHost`), and JSON with an empty string or key, a quote in
one, or an empty container in the indented form is not read back (`Json.RoundTrip`).

`dafny verify dfyconfig.toml` checks everything.

## Model

| member | source | states |
|---|---|---|
| `KcpTheorems.EndToEnd` | src/network/ikcp.cpp:358-537 | in every run of two endpoints over a network that loses, repeats and reorders datagrams, the messages returned by ikcp_recv on one side are a prefix of those accepted by ikcp_send on the other |
| `KcpTheorems.NoAcknowledgedDataLost` | src/network/ikcp.cpp:571-607 | in every run each segment ever numbered is still in the sender's snd_buf or held by the receiver |
| `KcpTheorems.ProgramSimulatesUnbounded` | src/network/ikcp.cpp:136-139 | in every run the 32-bit state is the state of the protocol over unbounded sequence numbers, reduced modulo 2^32 |
| `KcpTheorems.NeverWedged` | src/network/ikcp.cpp:441-463 | in every run a receive queue of 128 or more segments has a complete message at its head |
| `KcpTheorems.FullQueueHasMessage` | src/network/ikcp.cpp:441-463 | the head message, when complete, is the next message sent, with its size |
| `KcpTheorems.RunKeeps` | src/network/ikcp.cpp:749-896 | every step of a run keeps everything the safety theorems rest on, from any state that has it |
| `KcpTheorems.YoungEnabled` | src/network/ikcp.cpp:683-743 | the network assumption holds by itself until nearly 2^31 segments have been numbered: anything ever sent may still arrive |
| `KcpTheorems.AcceptanceExact` | src/network/ikcp.cpp:683-691 | the 32-bit window test agrees with the unbounded one exactly when no congruent number lies in the window |
| `KcpTheorems.StaleSegmentAccepted` | src/network/ikcp.cpp:683-691 | a segment repeated 2^32 numbers later is taken for a new one: the case the assumption excludes |
| `KcpSafety.SendKeepsPair` | src/network/ikcp.cpp:469-537 | ikcp_send keeps both directions of a connection true |
| `KcpSafety.RecvKeepsPair` | src/network/ikcp.cpp:358-435 | ikcp_recv keeps them true, and what it returns is the next message |
| `KcpSafety.ArriveKeepsPair` | src/network/ikcp.cpp:749-896 | a datagram arriving, late, again or out of order, keeps them true |
| `KcpSafety.FlushKeepsPair` | src/network/ikcp.cpp:927-1131 | a flush keeps them true, and every datagram it sends says only what is true |
| `KcpSafety.UpdateKeepsPair` | src/network/ikcp.cpp:1140-1165 | ikcp_update keeps them true |
| `KcpSafety.TakeMessage` | src/network/ikcp.cpp:383-409 | the fragments taken from a receiver true to the stream are exactly one message, the next |
| `KcpProtocol.UnaKeepsDirection` | src/network/ikcp.cpp:593-607 | dropping segments below una removes only what the receiver has |
| `KcpProtocol.AckKeepsDirection` | src/network/ikcp.cpp:571-591 | removing an acknowledged segment removes only what the receiver has |
| `KcpProtocol.PushKeepsDirection` | src/network/ikcp.cpp:683-743 | placing a data segment keeps the receiver's queues true to the stream sent |
| `KcpProtocol.DrainTrue` | src/network/ikcp.cpp:720-732 | moving segments in order extends rcv_queue by exactly the next pieces of the stream |
| `KcpProtocol.AdmitTrue` | src/network/ikcp.cpp:1017-1038 | admission numbers the fragments in the order they were queued |
| `KcpStream.JoinFragment` | src/network/ikcp.cpp:505-533 | joining the pieces of a message gives the message |
| `KcpStream.PeekMessage` | src/network/ikcp.cpp:441-463 | ikcp_peeksize is the size of the head message, or -1 until all of it has come |
| `KcpStream.FragmentShape` | src/network/ikcp.cpp:505-533 | pieces count down to zero and fit the segment size |
| `KcpInvariant.AnyDatagramKeeps` | src/network/ikcp.cpp:749-896 | no datagram, whatever its bytes, breaks the invariant of the control block |
| `KcpInvariant.InputKeeps` | src/network/ikcp.cpp:749-896 | the same for any list of segments, in both arithmetics |
| `KcpInvariant.FlushKeeps` | src/network/ikcp.cpp:927-1131 | a flush keeps snd_buf ordered within the window, rcv_buf ordered and drained, and the counters exact |
| `KcpInvariant.RecvKeeps` | src/network/ikcp.cpp:358-435 | ikcp_recv keeps the invariant |
| `KcpInvariant.SendKeeps` | src/network/ikcp.cpp:469-537 | ikcp_send keeps the invariant |
| `KcpInvariant.UpdateKeeps` | src/network/ikcp.cpp:1140-1165 | ikcp_update keeps the invariant |
| `KcpInvariant.CreateOk` | src/network/ikcp.cpp:234-296 | a new control block satisfies it |
| `KcpInvariant.WndSizeKeeps` | src/network/ikcp.cpp:1266-1277 | changing the windows keeps the invariant exactly when nothing in flight or stored is cut off and no ready segment is left behind |
| `KcpInvariant.ParseAckKeeps` | src/network/ikcp.cpp:571-591 | removing one acknowledged segment keeps snd_buf ordered within the window |
| `KcpInvariant.ParseUnaKeeps` | src/network/ikcp.cpp:593-607 | so does dropping a prefix |
| `KcpInvariant.ShrinkBufKeeps` | src/network/ikcp.cpp:560-569 | snd_una is the first segment in flight, or snd_nxt |
| `KcpInvariant.AdmitKeeps` | src/network/ikcp.cpp:1017-1038 | admission never puts more than snd_wnd segments in flight |
| `KcpInvariant.WindowOpen` | src/network/ikcp.cpp:1017 | the admission test is exactly that fewer than cwnd segments are in flight |
| `KcpInvariant.AcceptableWindow` | src/network/ikcp.cpp:683-691 | a segment is accepted exactly when its number lies in the receive window |
| `KcpInvariant.SlotPlaces` | src/network/ikcp.cpp:695-705 | the backward search finds the only place that keeps rcv_buf ordered, or the duplicate |
| `KcpInvariant.InsertKeeps` | src/network/ikcp.cpp:707-713 | inserting there keeps rcv_buf strictly ordered within the window |
| `KcpInvariant.DrainKeeps` | src/network/ikcp.cpp:720-732 | after moving segments rcv_buf has nothing left to deliver unless the queue is full |
| `KcpRefine.InputWraps` | src/network/ikcp.cpp:749-896 | reading fresh segments commutes with reducing every number modulo 2^32 |
| `KcpRefine.FlushWraps` | src/network/ikcp.cpp:927-1131 | so does a flush, segments sent included |
| `KcpRefine.RecvWraps` | src/network/ikcp.cpp:358-435 | so does ikcp_recv, with the same return code and bytes |
| `KcpRefine.SendWraps` | src/network/ikcp.cpp:469-537 | so does ikcp_send |
| `KcpRefine.PushPktWraps` | src/network/ikcp.cpp:683-743 | so does placing a data segment |
| `KcpRefine.ParseAckWraps` | src/network/ikcp.cpp:571-591 | so does an acknowledgement |
| `KcpRefine.ParseUnaWraps` | src/network/ikcp.cpp:593-607 | so does a cumulative acknowledgement |
| `KcpRefine.ParseFastackWraps` | src/network/ikcp.cpp:609-629 | so does the count of skipped acknowledgements |
| `KcpRefine.AdmitWraps` | src/network/ikcp.cpp:1017-1038 | so does admission |
| `Serial.ItimediffExact` | src/network/ikcp.cpp:136-139 | the 32-bit difference is the true one exactly when that lies in [-2^31, 2^31) |
| `KcpPack.FlushReadsBack` | src/network/ikcp.cpp:952-1108 | the datagrams of one flush, read by the input loop, give the pending acknowledgements, then the probes, then the segments chosen; each is non-empty, within the MTU and whole segments |
| `KcpPack.GroupedFlattens` | src/network/ikcp.cpp:952-1108 | packing loses, repeats and reorders nothing |
| `KcpPack.GroupedFits` | src/network/ikcp.cpp:952-1108 | no datagram is empty or above the MTU |
| `KcpPack.GroupedGreedy` | src/network/ikcp.cpp:952-1108 | a datagram is closed only when the next segment would not fit |
| `KcpPack.FlushFits` | src/network/ikcp.cpp:1042-1108 | everything written fits its header fields and the MTU |
| `KcpPack.SendSized` | src/network/ikcp.cpp:505-533 | ikcp_send queues only pieces that fit a datagram, numbered below 128 |
| `KcpWire.ParseEncoded` | src/network/ikcp.cpp:761-782 | reading back what was encoded gives the segments, with no error |
| `KcpWire.DecodeEncoded` | src/network/ikcp.cpp:902-913 | the header layout is read as it is written |
| `KcpWire.ParsedFieldsInRange` | src/network/ikcp.cpp:766-782 | fields read from arbitrary bytes lie in the ranges of their widths |
| `KcpWire.DecEnc32` | src/network/ikcp.cpp:94-121 | four bytes hold a number modulo 2^32 |
| `KcpSchedule.FlushTimerAhead` | src/network/ikcp.cpp:1140-1165 | after every update, whether it flushes or not, the next flush is 1 to 10000 milliseconds ahead |
| `KcpSchedule.CheckLosesNothing` | src/network/ikcp.cpp:1177-1213 | calling ikcp_update any time before what ikcp_check returned flushes nothing and moves no timer |
| `KcpSchedule.CheckedForBounds` | src/network/ikcp.cpp:1177-1213 | that time is within the interval, not after the flush timer, and not after any resend time |
| `KcpSchedule.CheckedForIs` | src/network/ikcp.cpp:1194-1213 | and is exactly the least of the three |
| `KcpClass.Kcp.constructor` | src/network/ikcp.cpp:234-296 | a new object is the initial control block and satisfies the invariant |
| `KcpClass.Kcp.ShrinkBuf` | src/network/ikcp.cpp:560-569 | computes the model's function |
| `KcpClass.Kcp.ParseAck` | src/network/ikcp.cpp:571-591 | the walk with deletion computes the model's function |
| `KcpClass.Kcp.ParseUna` | src/network/ikcp.cpp:593-607 | the walk with deletion computes the model's function |
| `KcpClass.Kcp.ParseFastack` | src/network/ikcp.cpp:609-629 | the walk with updates in place computes the model's function |
| `KcpClass.Kcp.UpdateAck` | src/network/ikcp.cpp:543-558 | the smoothed estimate and timeout, with C's division |
| `KcpAcks.AckList.Push` | src/network/ikcp.cpp:637-671 | the list of acknowledgements grows by one and keeps the others, across the replacement of the array, which happens exactly when it is full and less than doubles what is needed |
| `KcpAcks.AckList.Get` | src/network/ikcp.cpp:673-677 | the acknowledgement at a position of the list |
| `KcpClass.Kcp.MoveAvailable` | src/network/ikcp.cpp:413-425 | the loop from rcv_buf to rcv_queue computes the model's function |
| `KcpClass.Kcp.ParseData` | src/network/ikcp.cpp:683-743 | the backward search, insertion and move compute the model's function |
| `KcpClass.Kcp.InputSegment` | src/network/ikcp.cpp:788-865 | one segment of a datagram, by command |
| `KcpClass.Kcp.Input` | src/network/ikcp.cpp:749-896 | on any bytes: the return code is the parser's, the new state the model's, and the invariant is kept |
| `KcpClass.Kcp.GrowCwnd` | src/network/ikcp.cpp:876-892 | slow start and congestion avoidance |
| `KcpClass.Kcp.Send` | src/network/ikcp.cpp:469-537 | return codes -1, -2 and 0, and the queue grown by exactly the pieces of the message |
| `KcpClass.Kcp.Peeksize` | src/network/ikcp.cpp:441-463 | computes the model's function |
| `KcpClass.Kcp.MergeHead` | src/network/ikcp.cpp:383-409 | returns the head message and removes it, or leaves it when peeking |
| `KcpClass.Kcp.Recv` | src/network/ikcp.cpp:358-435 | return codes, bytes and new state are the model's; the assertion on the length holds |
| `KcpClass.Kcp.FlushAcks` | src/network/ikcp.cpp:952-964 | writes the acknowledgements, packed as the model packs them, and leaves the last in the reused segment |
| `KcpClass.Kcp.ProbeTimer` | src/network/ikcp.cpp:966-986 | the window-probe timer |
| `KcpClass.Kcp.FlushProbes` | src/network/ikcp.cpp:988-1009 | writes the probes behind the acknowledgements |
| `KcpClass.Kcp.AdmitQueued` | src/network/ikcp.cpp:1017-1038 | the loop from snd_queue to snd_buf computes the model's function |
| `KcpClass.Kcp.Restamp` | src/network/ikcp.cpp:1045-1079 | decides first send, timeout or fast resend, and stamps the segment |
| `KcpClass.Kcp.FlushSegment` | src/network/ikcp.cpp:1045-1107 | sends one due segment, closing the datagram when it is full |
| `KcpClass.Kcp.FlushData` | src/network/ikcp.cpp:1045-1107 | the walk over snd_buf computes the model's function, with its counts |
| `KcpClass.Kcp.UpdateSsthresh` | src/network/ikcp.cpp:1110-1131 | the congestion window after losses |
| `KcpClass.Kcp.Flush` | src/network/ikcp.cpp:927-1131 | the new state is the model's and exactly the model's datagrams have been handed over, in order |
| `KcpClass.Kcp.Tick` | src/network/ikcp.cpp:1140-1165 | the flush timer |
| `KcpClass.Kcp.Update` | src/network/ikcp.cpp:1140-1165 | flushes exactly when the timer says, with the model's datagrams |
| `KcpClass.Kcp.Check` | src/network/ikcp.cpp:1177-1213 | computes the model's function |
| `KcpClass.Kcp.SetMtu` | src/network/ikcp.cpp:1217-1230 | return code and new size; the state stays valid exactly when what is queued fits |
| `KcpClass.Kcp.WndSize` | src/network/ikcp.cpp:1266-1277 | ignores non-positive sizes and keeps the receive window at least 128 |
| `KcpClass.Kcp.NoDelay` | src/network/ikcp.cpp:1240-1263 | changes only what its non-negative arguments name |
| `KcpClass.Kcp.Waitsnd` | src/network/ikcp.cpp:1279-1282 | the number of segments in both sending queues |
| `KcpClass.EncodeSeg` | src/network/ikcp.cpp:902-913 | writes exactly the header and data behind what the buffer holds |
| `KcpClass.LengthIsPeeksize` | src/network/ikcp.cpp:411 | the assertion in ikcp_recv holds in every state, whatever is queued |
| `FreeList.ListSound` | src/common/concurrentqueue/concurrentqueue.h:1438-1517 | at every moment of every run the head leads through distinct nodes to null, none of them a caller's, and every other node has a thread responsible for it |
| `FreeList.WinnerOwns` | src/common/concurrentqueue/concurrentqueue.h:1469-1477 | a thread that swung the head owns its node alone, and the assertion on the bit holds |
| `FreeList.SwingSound` | src/common/concurrentqueue/concurrentqueue.h:1466-1469 | a successful compare-and-swap never writes a stale successor |
| `FreeList.ReturnsAlternate` | src/common/concurrentqueue/concurrentqueue.h:1438-1489 | between two returns of a node it has been added |
| `FreeList.QuietList` | src/common/concurrentqueue/concurrentqueue.h:1438-1517 | with no thread inside, each node is on the list with count 1 or with a caller with count 0 |
| `FreeList.AccessesSafe` | src/common/concurrentqueue/concurrentqueue.h:1438-1517 | every step uses pointers to nodes only |
| `FreeList.StepKeeps` | src/common/concurrentqueue/concurrentqueue.h:1438-1517 | every atomic step keeps the reference counts and the chain |
| `FreeList.LinkUndoKeeps` | src/common/concurrentqueue/concurrentqueue.h:1509-1512 | a failed link hands the node to whoever drops the last reference |
| `FreeList.LostKeeps` | src/common/concurrentqueue/concurrentqueue.h:1479-1485 | dropping the last reference of a node to be added takes over adding it |
| `TicketQueue.TicketsBalance` | src/common/concurrentqueue/concurrentqueue.h:2536-2604 | at every moment optimistic count = head + overcommit + tickets in hand, and all claims together stay below tail |
| `TicketQueue.ClaimsBelowTail` | src/common/concurrentqueue/concurrentqueue.h:1978-1990 | every index headIndex.fetch_add hands out is below tailIndex |
| `TicketQueue.ClaimsDisjoint` | src/common/concurrentqueue/concurrentqueue.h:2787-2789 | no index is claimed by two consumers |
| `TicketQueue.MovedOnce` | src/common/concurrentqueue/concurrentqueue.h:2800-2812 | an element moved out was published and has not been moved out before |
| `TicketQueue.BlocksFreedOnce` | src/common/concurrentqueue/concurrentqueue.h:1592-1613 | a block is released once, when all its elements have been moved out, and its count never passes the block size |
| `TicketQueue.QuietQueue` | src/common/concurrentqueue/concurrentqueue.h:2765-2864 | with no consumer inside, exactly the elements below head have been delivered, each with its value |
| `TicketQueue.StepKeeps` | src/common/concurrentqueue/concurrentqueue.h:2765-2864 | every atomic step, single or bulk, keeps the ticket accounting and the state of every index |
| `TicketQueue.PassedBound` | src/common/concurrentqueue/concurrentqueue.h:2776-2789 | however late a consumer read the overcommit, no more tickets pass than there are elements |
| `LightSemaphore.PermitsConserved` | src/common/concurrentqueue/lightweightsemaphore.h:262-402 | permits put in = permits given + held on the way out + free count + system value + posts to come, and no call gets more than it asked for |
| `LightSemaphore.WakeupsConserved` | src/common/concurrentqueue/lightweightsemaphore.h:262-402 | waiting threads = negative count + system value + posts to come, so no wakeup is lost |
| `LightSemaphore.PostsFit` | src/common/concurrentqueue/lightweightsemaphore.h:393-402 | the cast of the number of posts to int is exact with fewer than 2^31 threads |
| `LightSemaphore.QuietSemaphore` | src/common/concurrentqueue/lightweightsemaphore.h:262-402 | with every call returned the count is what was put in less what was given |
| `LightSemaphore.StepKeeps` | src/common/concurrentqueue/lightweightsemaphore.h:262-402 | every atomic step, timeouts and failed waits included, keeps both balances |
| `TimerHeap.Heap.NodeSwap` | src/common/Heap.cpp:17-50 | parent and child change places in the tree, and nothing else moves |
| `TimerHeap.Heap.Exchange` | src/common/Heap.cpp:23-37 | what the pointer assignments on parent, child and sibling do to every node |
| `TimerHeap.Heap.Reattach` | src/common/Heap.cpp:39-49 | what those on the neighbours do |
| `TimerHeap.Heap.Insert` | src/common/Heap.cpp:52-94 | keeps the complete tree, the links and the order, and adds exactly the node |
| `TimerHeap.Heap.Remove` | src/common/Heap.cpp:96-185 | removes exactly the node and keeps tree, links and order, though the node's own key may have been changed and it may no longer be compared |
| `TimerHeap.Heap.Dequeue` | src/common/Heap.cpp:187-188 | removes the root |
| `TimerHeap.Heap.Min` | src/common/Heap.cpp:11-14 | the root, due no later than any other node |
| `TimerHeap.Heap.Walk` | src/common/Heap.cpp:72-82 | following the bits of a position leads to that position |
| `TimerHeap.Path` | src/common/Heap.cpp:68-70 | the bits are those of the position, and fit where it fits |
| `TimerHeap.Heap.UnlinkLast` | src/common/Heap.cpp:112-132 | takes the last node of the bottom row off |
| `TimerHeap.Heap.Replace` | src/common/Heap.cpp:141-161 | puts the last node in the place of the removed one |
| `TimerHeap.Heap.SiftDown` | src/common/Heap.cpp:163-177 | restores the order below |
| `TimerHeap.Heap.SiftUp` | src/common/Heap.cpp:92-93 | restores the order above |
| `TimerHeap.HoleAnyKey` | src/common/Timer.cpp:69-76 | an ordered heap is good for removing a node whatever its key is changed to |
| `TimerHeap.RootLeast` | src/common/Heap.cpp:11-14 | in an ordered heap the root's deadline is the least |
| `TimerHeap.Timers.Start` | src/common/Timer.cpp:62-68 | a stopped timer given a deadline other than 0 runs with it, the others are untouched |
| `TimerHeap.Timers.Stop` | src/common/Timer.cpp:69-76 | the timer is off the heap although its key is cleared first; the others are untouched |
| `TimerHeap.Timers.Destroy` | src/common/Timer.cpp:12-23 | the timer is off the heap although its `user` is cleared first, so no comparison may read it; the others are untouched |
| `TimerHeap.Timers.Update` | src/common/Timer.cpp:30-60 | fires at most ten timers, all due, in order of deadline; if fewer, none due is left; repeating ones run again |
| `Framing.NetConnect.OnMsgBuffer` | src/network/NetConnect.cpp:22-64 | after any reads of any sizes on which the loop ends, the messages delivered are those of all bytes received |
| `Framing.NetConnect.ReadTurn` | src/network/NetConnect.cpp:24-63 | one turn of the loop, with the source's integer conversions |
| `Framing.NetConnect.ReadHead` | src/network/NetPacket.cpp:51-64 | takes what the head still lacks, or what there is |
| `Framing.StuckExactly` | src/network/NetConnect.cpp:42-53 | a turn of the loop changes nothing exactly when the head read announces 2^31 bytes or more |
| `Framing.EndsExactly` | src/network/NetConnect.cpp:22-64 | one read of the socket, after whatever was read before, comes to an end exactly when no head in the stream announces 2^31 bytes or more with a byte behind it |
| `Framing.ReadsOrSticks` | src/network/NetConnect.cpp:22-64 | on any bytes the loop either delivers every message and reads everything, or reaches a turn that changes nothing with bytes unread |
| `Framing.HugeHead` | src/network/NetConnect.cpp:42-53 | the least such input: a head announcing 2^31 bytes and one byte more, unread after any number of turns |
| `Framing.TurnReads` | src/network/NetConnect.cpp:24-63 | every other turn reads on in the same stream, and no turn changes whether the stream will stop the reader |
| `Framing.FramesAppend` | src/network/NetConnect.cpp:22-64 | how a stream breaks into messages does not depend on where it is cut |
| `Framing.AllDelivered` | src/network/NetConnect.cpp:42-62 | when everything sent has come all messages have been delivered, except that a last one without a body waits for another byte |
| `Framing.EndToEnd` | src/network/NetConnect.cpp:22-91 | from the sender's queue to the receiver: a prefix of the messages sent, and all of them once all bytes have come |
| `Framing.EncodeReads` | src/network/NetPacket.cpp:45-49 | an encoded message is read back as itself |
| `Framing.SendQueue.Write` | src/network/TcpSocket.cpp:219-227 | the packet goes to the end of the queue, and is submitted at once when nothing is being sent; the queue stops for good exactly by an empty packet put in an idle queue |
| `Framing.SendQueue.OnWriteComplete` | src/network/TcpSocket.cpp:239-250 | what was sent leaves the queue and the next packets are submitted; the queue stops for good exactly when the next ten are all empty |
| `Framing.SendQueue.SendTopMsg` | src/network/TcpSocket.cpp:260-279 | submits the front of the queue, at most ten packets and until 1024 bytes are reached, in one write |
| `Framing.SilentBatch` | src/network/TcpSocket.cpp:260-279 | nothing would be submitted, for good, exactly when the first ten packets are empty |
| `Chunked.HttpParser.Execute` | src/utils/http_parser.cpp:641-2140 | inside a chunked body, one buffer of any size does what its bytes do one by one: body bytes are all delivered unless there is an error, and then the position of the offending byte is returned; a parser in error takes nothing and an empty buffer is an error until the message is complete |
| `Chunked.HttpParser.ExecuteByte` | src/utils/http_parser.cpp:1989-2109 | one byte in a chunk-size, line-end or trailer state |
| `Chunked.HttpParser.TakeData` | src/utils/http_parser.cpp:2071-2092 | takes as much of a chunk's data as the buffer has |
| `Chunked.AnySplit` | src/utils/http_parser.cpp:1989-2109 | for every run of calls over which the bytes of a chunked body are split: the data delivered is the payload and the message is completed once exactly when no call is made with an empty buffer before the last byte; otherwise it ends in HPE_INVALID_EOF_STATE, with part of the payload and no message |
| `Chunked.EmptyFirst` | src/utils/http_parser.cpp:663-681 | the failing input at its smallest: an empty buffer and then the whole body leave the parser in error with nothing read |
| `Chunked.CutAnywhere` | src/utils/http_parser.cpp:641-2140 | two calls do what one does exactly when neither is made with an empty buffer before the end |
| `Chunked.BodyReadsBack` | src/utils/http_parser.cpp:1989-2109 | a body encoded by section 4.1 of RFC 7230, with chunk extensions and an empty trailer, is read back |
| `Chunked.SizeExact` | src/utils/http_parser.cpp:2005-2040 | a size is accepted exactly when it is at most 2^64 - 17, and is read exactly |
| `Chunked.StepKeeps` | src/utils/http_parser.cpp:1989-2109 | no byte makes an assertion fail, wraps content_length or brings it to the sentinel |
| `Chunked.FeedAppend` | src/utils/http_parser.cpp:641-2140 | within the loop, cutting the bytes anywhere makes no difference |
| `Chunked.FeedKeeps` | src/utils/http_parser.cpp:1989-2109 | the assertions hold on every input, well formed or not |
| `HttpUrl.UrlSound` | src/utils/http_parser.cpp:2416-2536 | on success the fields are non-empty, within the buffer, disjoint and in order, with their delimiters; a schema has a host; the port is the exact value, at most 65535; CONNECT gives host and port |
| `HttpUrlForm.UrlComplete` | src/utils/http_parser.cpp:2416-2536 | every URL put together from well-formed parts - schema, user information, name or bracketed address with zone, port, path, query, fragment; a path alone; or host and port for CONNECT - is parsed, its fields are exactly the ranges of its parts, and the port has its value |
| `HttpUrlForm.FragmentBehindHost` | src/utils/http_parser.cpp:547-571 | a URL with a fragment directly behind its authority is refused, for every schema, well-formed authority and fragment |
| `HttpUrlForm.AuthRun` | src/utils/http_parser.cpp:2329-2408 | user information, host and port of any well-formed authority are found where they are |
| `HttpUrl.HttpParserUrl.Parse` | src/utils/http_parser.cpp:2416-2536 | succeeds exactly when the model does, with its fields and port |
| `HttpUrl.HttpParserUrl.FindFields` | src/utils/http_parser.cpp:2433-2494 | the first loop computes the model's fields |
| `HttpUrl.HttpParserUrl.ParseHost` | src/utils/http_parser.cpp:2329-2408 | the second loop splits the host as the model does |
| `HttpUrl.HttpParserUrl.ParsePort` | src/utils/http_parser.cpp:2514-2533 | refuses a port above 65535 exactly |
| `HttpUrl.ScanToKeeps` | src/utils/http_parser.cpp:2433-2494 | after every character the fields so far are ordered and delimited |
| `HttpUrl.HostToKeeps` | src/utils/http_parser.cpp:2342-2388 | the parts of the host are in order and leave the other fields alone |
| `HttpUrl.UrlCharFollows` | src/utils/http_parser.cpp:493-639 | which states can follow which, and on what characters; the state the loop asserts against is never entered |
| `HttpUrl.HostCharFollows` | src/utils/http_parser.cpp:2246-2326 | the same for the host |
| `Json.RoundTrip` | src/utils/JsonReader.cpp:236-251 | reading what was written gives the tree back: in the compact form exactly when no string or key is empty or has a quote in it, in the indented form exactly when moreover no container is empty |
| `Json.ReadTidy` | src/utils/JsonReader.cpp:215-234 | no text is read as a value with an empty string or key, or one with a quote in it |
| `Json.ReadsBack` | src/utils/JsonReader.cpp:215-234 | a value's text is read back as the value, stopping right behind it, whatever follows |
| `Json.EmptyFails` | src/utils/JsonReader.cpp:104-213 | an empty container anywhere makes the indented text unreadable |
| `Json.ItemsBack` | src/utils/JsonReader.cpp:104-146 | the elements of an array |
| `Json.MembersBack` | src/utils/JsonReader.cpp:148-213 | the members of an object, in the order of the map |
| `Json.IntReads` | src/utils/JsonReader.cpp:58-87 | an int is read back, sign included |
| `Json.ReadValue` | src/utils/JsonReader.cpp:215-234 | every value read has consumed text, which is why the recursion ends |
| `Json.Write` | src/utils/Json.cpp:56-95 | appends the text of the value |
| `Json.WriteArray` | src/utils/Json.cpp:224-244 | appends the text of the array, with its commas and indentation |
| `Json.WriteObj` | src/utils/Json.cpp:357-377 | appends the text of the object |
| `Json.WriteDepth` | src/utils/Json.cpp:5-11 | appends one tab a level |
| `Json.JsonBuff.Take` | src/utils/JsonReader.cpp:215-234 | reader computes the model's value and cursor |
| `Json.JsonBuff.TakeArray` | src/utils/JsonReader.cpp:104-146 | readArray does |
| `Json.JsonBuff.TakeObj` | src/utils/JsonReader.cpp:148-213 | readObj does |
| `Json.JsonBuff.TakeBase` | src/utils/JsonReader.cpp:30-101 | readBase does |
| `Json.JsonBuff.TakeStr` | src/utils/JsonReader.cpp:7-28 | readStr does |
| `Json.JsonBuff.TakeNumber` | src/utils/JsonReader.cpp:67-79 | the scan over digits and points does |
| `Json.JsonBuff.SkipBlanks` | src/utils/JsonReader.h:20 | skip does |
| `Json.JsonBuff.Parser` | src/utils/JsonReader.cpp:236-251 | accepts a value with nothing but blanks behind it |
| `Sha1.SHA1.Input` | src/common/sha1.cpp:134-171 | the message grows by the piece; the object is corrupted exactly by data after the digest or by 2^64 bits |
| `Sha1.SHA1.InputOne` | src/common/sha1.cpp:148-170 | one byte, with the block processed when full |
| `Sha1.SHA1.CountBits` | src/common/sha1.cpp:152-162 | the length in two words is exact until it overflows |
| `Sha1.SHA1.Result` | src/common/sha1.cpp:93-113 | the digest of the whole message, however it was cut, and the same when asked again |
| `Sha1.SHA1.PadMessage` | src/common/sha1.cpp:480-525 | pads and processes one or two blocks, giving the digest of the message |
| `Sha1.SHA1.ProcessMessageBlock` | src/common/sha1.cpp:370-457 | the compression of section 6.1 of RFC 3174 |
| `Sha1.SHA1.MakeSchedule` | src/common/sha1.cpp:386-399 | the 80 words of the schedule |
| `Sha1.RunRounds` | src/common/sha1.cpp:401-447 | the 80 rounds, in four loops |
| `Sha1.SHA1.StoreLength` | src/common/sha1.cpp:514-522 | the length in bits, big-endian, ends the last block |
| `Sha1.PadInjective` | src/common/sha1.cpp:480-525 | different messages have different padded forms |
| `Sha1.PadWhole` | src/common/sha1.cpp:480-525 | the padded message is the least number of whole blocks |
| `Sha1.AbsorbAppend` | src/common/sha1.cpp:134-171 | blocks may be processed as they fill |

## Left out

- KCP stream mode (`stream != 0`): a refused oversized send may already have merged part of the data into the queue, so sending is not atomic there.
- KCP queues are sequences in the object, not circular linked lists: the list macros of `ikcp.h` and the aliasing of segments are not modelled. The list of acknowledgements is a sequence there too; the array behind it is `KcpAcks`.
- KCP logging, allocation failure, `ikcp_release`, and the null-buffer forms of send and receive: they do not change what the protocol does.
- KCP fields that are written and never read (`conv`, `cmd`, `wnd`, `ts` and `una` of received segments, `ts_recent`, `ts_lastack`) are not kept.
- The counters `nsnd_buf`, `nsnd_que`, `nrcv_buf` and `nrcv_que` and the windows are integers; they stay below 2^31 in the runs considered.
- KcpClass.Kcp.UpdateAck: the smoothed round-trip values are integers, so the signed overflow that huge samples would cause is not modelled.
- KcpClass.Kcp.SetMtu: lowering the size while larger fragments are queued is allowed, as in the source, but then the state is no longer valid and later flushes are not covered.
- Progress of KCP under a fair network: only safety and the absence of wedging are proved.
- FreeList: memory orders weaker than sequential consistency; the debug lock; destruction.
- TicketQueue: the indices are unwrapped, so the modular comparison is ordinary; the block index, block reuse, exceptions and the limit on the size of a sub-queue are not modelled; blocks are counted as in the implicit producer, not by the flags the explicit one uses for small blocks; a bulk request is for at least one element.
- LightSemaphore: a wait with time-out 0 may also find a system permit at once, which allows more runs than the code has; the count is an integer, without the overflow of a 64-bit word.
- TimerHeap.Timers.Start: on a timer that is not running and with a deadline other than 0; the source has no guard against the others, which would link a node twice or hide it from `stop`.
- TimerHeap: deadlines are integers, so the 32-bit clock does not wrap; callbacks do not touch the heap; the clock reading is a parameter and the same during one update.
- Framing.NetConnect.OnMsgBuffer: only for streams on which the source's loop ends; on the others it never returns, which `Framing.ReadsOrSticks` states turn by turn.
- Framing: sockets, errors of writes and the closing of connections; the buffer of the system is given as an array and a size.
- Chunked.HttpParser.Execute: covers the states of a chunked body; fields of a trailer and whatever follows the message are left to the header automaton.
- Chunked.BodyReadsBack: the trailer is empty, for the same reason.
- Chunked: callbacks succeed and do not pause the parser; the strict build.
- HttpUrl.HttpParserUrl.Parse: for input of at most 65535 bytes; longer input would truncate offsets kept in 16 bits.
- HttpUrl.HttpParserUrl.FindFields: the same.
- HttpUrl.HttpParserUrl.ParseHost: the same.
- Json.Write: a float is kept as its text, so its formatting is not modelled.
- Json: the exception `std::stof` may throw; the typed setters and getters; the order of members is given instead of computed from a map; text has no NUL inside.
- Sha1: the overloads of `Input` and the stream operators, which only forward.
- WebSocket frames, the KCP session handshake and `HttpConnect::on_msgbuffer` depend on code that is not part of this model.
- UDP and TCP plumbing, database wrappers, Lua bindings, base64, CSV, dates, pools: they would only add easy members.
