# UDT's reliable data plane, verified in Dafny

UDT carries a byte stream, or a series of messages, over UDP. This project models the part of UDT4
that makes the transfer reliable: a sender and a receiver joined by a network that may lose,
duplicate and reorder every data and control packet. It has five layers.

1. **Wire numbers.** `SeqNo` is the 31-bit wrapping arithmetic on `int32`; on every window shorter
   than 2^30-1 it agrees with unbounded packet indices. `MsgField` and `LossCoding` are the codings
   of the message word and of loss reports.
2. **Data structures, in place.** The two loss lists (`SndLossList`, `RcvLossList`, over the shared
   proofs in `LossNodes` and `Circular`) are linked lists of intervals on circular arrays and refine
   sets. `SndBuffer` is a growing ring of blocks and refines a queue of chunks. `RcvBuffer` is the
   circular reorder buffer over units that `UnitQueue` hands out. `AckWindow` is the circular ACK
   history and refines a queue that forgets its oldest record. `SndUList` is the indexed heap that
   schedules sockets.
3. **The protocol over packet indices.** `SndModel` and `RcvModel` (with `MsgModel` for message
   mode) are the two machines, one function for each atomic section of the source. `Connection`
   joins them with a network and proves one invariant of both machines and of everything in flight.
   `Steps` says what each event does in every state a run can reach, without the functions that the
   steps are made of. `Delivery`, `Known`, `RightEdge`, `Windows`, `Recovery`, `Messages` and
   `MessageRecovery` hold what every run guarantees; `Rounds` builds the runs that show where a
   guarantee ends.
4. **The two ends on wire numbers.** `Sender` and `Receiver` update the source's own fields and
   structures in place. `Link` joins both and proves that whatever they do is a step of the model;
   `Link.Transfer` is a client that carries data across.
   Each operation finds the preconditions of the structures it uses in the invariant of layer 3:
   what the source only assumes ("guaranteed by the UDT receiver", twice the space for the sender's
   loss list, the branches marked "attack or bug") is proved there.
5. **Streaming MD5.** `Md5Spec` is the digest of RFC 1321 (sections 3.1 to 3.5), `Md5` the streaming
   code with its unrolled rounds.

`dafny verify dfyconfig.toml` checks the whole project.

## What the proofs found

- The handshake sets the initial flow window to the size of the receive buffer, but a buffer of B
  slots stores only B-1 packets. The last packet of the first window can therefore be refused:
  `RightEdge.RefusalFreeIff` shows that refusals for lack of space are impossible exactly when the
  initial window is at most B-1, as long as no advertised window had to be raised to the minimum of 2.
- Raising it causes refusals by itself, whatever the sizes: over all runs they are impossible only
  when the sender may not send at all (`RightEdge.NeverRefusesIff`). What survives is a bound: the
  sender, the ACKs and the packets stay within two packets of the receiver's edge exactly when the
  initial window is at most B+1 (`RightEdge.WithinTwoIff`).
- `m_iRcvLastAckAck` moves only when an ACK2 comes back. A full ACK whose number is 2^30-1 or more
  ahead of it is taken for an old one and not sent, except for three distances across a wrap
  (`Delivery.FullAckGoesOutIff`). With no ACK2 for that many packets the connection can stall for good,
  whatever its initial number (`Recovery.StallsWithoutAck2`). `m_iRcvLastAckAck` itself never falls
  (`Known.KnownNeverFalls`), and the ACK number never gets a whole turn ahead of it
  (`Known.NeverLapped`).
- Short of that, in stream mode and after any run, with everything in flight lost, the connection
  can still deliver all accepted bytes exactly when the receive buffer has at least two slots and the
  initial window admits one packet (`Recovery.AlwaysRecoverable`). The threshold is exact (`Recovery.RecoveryLimit`).
- In message mode it can still deliver every message exactly when, in addition, each message has
  fewer packets than the receive buffer has slots (`MessageRecovery.MessagesRecoverIff`), up to the
  same threshold (`MessageRecovery.MessageLimit`). `sendmsg` checks against the size of its own
  buffer, 8192 packets by default (src/core.cpp:1223), and the default receive buffer of 8192 slots
  stores 8191: a message of 8192 packets is never delivered.
- An ACK2 leaves before AckLock is taken, so `m_iRcvLastAckAck` can pass `m_iSndLastDataAck` for a
  moment. `Delivery.OvertakenIff` says which event gets there and `Delivery.Ack2OvertakesIff` for
  which sizes some run does; it never passes it once no ACK waits for AckLock.
- In the same moment the unreleased packets can exceed the widest window given, whenever the buffer
  has two slots and anything may be sent (`Windows.WindowGrowsIff`). The most there can be is that
  window and one advertised buffer; some run reaches it (`Windows.UnreleasedIff`).
- Scheduled retransmissions lie up to one widest window apart, missing packets up to the buffer less
  three, and some runs reach both (`Windows.ScheduledApartIff`, `Windows.MissingApartIff`). Setting
  `UDT_FC` after `UDT_RCVBUF` can leave a buffer larger than the flight flag size
  (src/core.cpp:255-266). The loss lists can then be too short: `Windows.SlotsSharedIff` says for
  which sizes two numbers come to share a slot.
- The order given by `seqcmp` is right for all pairs at one distance exactly below its threshold, and
  it orders all windows exactly up to it (`SeqNo.NewerEverywhereIff`, `SeqNo.OrdersWindowsIff`).
  Beyond, three numbers can each precede the next (`SeqNo.OrderCyclesBeyondThreshold`).
- `remove_` of the heap only sifts down. Removing an inner entry keeps the heap in order exactly
  when the entry moved into the hole is not earlier than the parent of the hole
  (`SndUList.SndUList.RemoveNode`); `SndUList.InteriorRemovalBreaksOrder` schedules seven sockets one
  after the other and removes one with which it fails. When the socket is put back at once, as
  `update` does, order can come back: `SndUList.Reinsertable` says when.
- `update` inserts without the test for a full array that `insert` makes; it needs a free slot.
- `getNextAvailUnit` never looks at the last unit of a block (unless it is the only one), nor at most
  units before the current one in the block where it starts; `UnitQueue.UnitQueue.GetNextAvailUnit`
  says exactly when it gives up. A pool of one block of two to ten units reports no unit while its
  last one is free (`UnitQueue.LastUnitMissed`; `UnitQueue.FreeUnitMissed` gets there).
- The ACK history keeps one record less than its size, which is 1024.
- For a message that fills the whole receive buffer `scanMsg` reports a stretch of slots as found,
  but the stretch is empty: `readMsg` returns no bytes and changes nothing, while `getRcvMsgNum`
  and with it epoll report a message (`RcvBuffer.RcvBuffer.GetRcvMsgNum`). Some run gets there
  exactly when the buffer has at least three slots (`Messages.ScanMisledIff`).

## Assumptions

- Both ends run this code, and a packet that was never sent does not arrive.
- A packet is processed while it is within 2^30-1 of the state that processes it, and so is a number
  that `packData` took off the loss list. The `Near` preconditions in `Link` state this, and nothing
  else about the network. Nothing is assumed about `m_iRcvLastAckAck`: the model compares with it on
  wire numbers, as the code does. Only the theorems about recovery are about runs that end with the
  ACK number less than 2^30-1 ahead of it.
- Each function of the model is one atomic section: what runs under one lock, or on one thread
  between two locks. `packData` is cut between `getLostSeq` and its AckLock section, ACK processing
  before its AckLock section. While an ACK waits for AckLock the thread that received it takes no
  other packet or timer.
- The sizes fit (`Link.Sized`): of those that the handshake sets, with twice the buffer within
  2^30-1, exactly the ones with `m_iRcvBufSize <= m_iFlightFlagSize` do
  (`Link.NegotiatedSizesFitIff`). The initial number may
  be 0, in which case the code starts with a current number of -1; `SeqNo.CurrWire` covers it.
- The congestion window, the clock, the interval after which an unchanged ACK is repeated, and
  whether an ACK2 is sent are arbitrary parameters.
- Combining bits that cannot overlap is written as an addition, a shift as a product or quotient.

## Model

| member | source | states |
|---|---|---|
| SeqNo.CmpAgrees | src/common.h:226-227 | on indices closer than the threshold the comparison has the sign of the difference of the indices, and no intermediate leaves int32 |
| SeqNo.OffAgrees | src/common.h:232-241 | the offset of two numbers is the difference of their indices across any wrap |
| SeqNo.LenAgrees | src/common.h:229-230 | the length of a stretch is the number of indices in it, both ends included |
| SeqNo.IncAgrees | src/common.h:243-265 | incrementing a sequence or ACK number is incrementing the index |
| SeqNo.DecAgrees | src/common.h:246-247 | decrementing a number is decrementing the index |
| SeqNo.IncByAgrees | src/common.h:249-250 | adding n to a number adds n to the index |
| SeqNo.StrictTotalOrderOnWindow | src/common.h:226-227 | on every window shorter than the threshold the comparison is a strict total order |
| SeqNo.NewerIff | src/common.h:226-227 | of two indices less than a full circle apart the test takes the larger for newer exactly below the threshold, or, at most two further on, when its number has wrapped around |
| SeqNo.NewerEverywhereIff | src/common.h:226-227 | at a given distance the test is right for all numbers if and only if the distance is below the threshold |
| SeqNo.OrdersWindowsIff | src/common.h:226-227 | the test orders all windows of a length if and only if the length is at most the threshold |
| SeqNo.OrderCyclesBeyondThreshold | src/common.h:226-227 | without the window the order has cycles |
| SeqNo.CmpCurr | src/core.cpp:2442-2445 | comparing with the largest number received also works before anything was received, when it is the initial number minus one and may be -1 |
| MsgField.ComposeRoundTrip | src/packet.cpp:328-344 | the getters recover number, order flag and boundary from the word that addBuffer composes |
| Stream.ChunksRestoreData | src/buffer.cpp:120-155 | the chunks of a message concatenate to its bytes |
| Stream.ChunksCounted | src/buffer.cpp:122-124 | the number of chunks is the quotient by the packet size, rounded up |
| Stream.ChunksFramed | src/buffer.cpp:142-146 | exactly the first chunk is marked first, exactly the last one last, and all carry the order flag and number of their message |
| LossCoding.MarkRoundTrip | src/core.cpp:2422-2427 | clearing the top bit undoes setting it |
| LossCoding.ReportFormat | src/core.cpp:2417-2432 | a single number is reported as itself, a stretch as its first number with the top bit set and its last number |
| SndLossList.SndLossList.constructor | src/list.cpp:43-70 | an empty list whose slots are all free |
| SndLossList.SndLossList.Insert | src/list.cpp:85-255 | inserting a stretch is set union, for overlapping, touching, earlier and later stretches; the result is exactly the number of new members |
| SndLossList.SndLossList.Remove | src/list.cpp:257-367 | all members up to the given number go, no others |
| SndLossList.SndLossList.GetLostSeq | src/list.cpp:376-418 | the minimum is returned and removed, -1 for an empty list |
| SndLossList.SndLossList.GetLossLength | src/list.cpp:369-374 | the length field is the cardinality of the set |
| RcvLossList.RcvLossList.Insert | src/list.cpp:453-499 | appending a stretch above all members is set union, with the links in both directions kept inverse |
| RcvLossList.RcvLossList.Remove | src/list.cpp:501-629 | exactly the given number goes, and the result says whether it was there; the backward search ends, splits keep the links inverse |
| RcvLossList.RcvLossList.Find | src/list.cpp:649-667 | true exactly when some member lies in the stretch |
| RcvLossList.RcvLossList.GetFirstLostSeq | src/list.cpp:674-680 | the minimum, or -1 for an empty list |
| RcvLossList.RcvLossList.GetLossLength | src/list.cpp:669-672 | the length field is the cardinality of the set |
| RcvLossList.RcvLossList.GetLossArray | src/list.cpp:682-703 | the array receives the coding of a prefix of the stretches: of all before which two entries of the limit are free, and never more entries than the limit |
| RcvLossList.AllReported | src/list.cpp:682-703 | written out completely, the stretches report exactly the members of the list |
| SndBuffer.SndBuffer.constructor | src/buffer.cpp:47-92 | one cycle of the given number of blocks, with an empty queue |
| SndBuffer.SndBuffer.Increase | src/buffer.cpp:285-342 | the cycle grows by the initial number of blocks, and the queue keeps its chunks and reading position |
| SndBuffer.SndBuffer.Grow | src/buffer.cpp:126-128 | the growth loop ends with room for the new chunks and one free block |
| SndBuffer.SndBuffer.AddBuffer | src/buffer.cpp:120-164 | the queue gains exactly the chunks of the message behind all unacknowledged ones, and the message number advances by one, from 0x1FFFFFFE back to 1 |
| SndBuffer.SndBuffer.CopyIn | src/buffer.cpp:134-159 | the copy loop fills the free blocks with consecutive slices of the data |
| SndBuffer.SndBuffer.ReadNew | src/buffer.cpp:217-230 | the oldest chunk never sent is handed out and becomes sent, or nothing if there is none |
| SndBuffer.SndBuffer.ReadAt | src/buffer.cpp:232-266 | the chunk at an offset from the oldest unacknowledged one is looked up |
| SndBuffer.SndBuffer.AckData | src/buffer.cpp:268-278 | exactly the oldest chunks leave the queue |
| AckWindow.AckWindow.Store | src/window.cpp:70-81 | the record joins the queue of records, and a full window forgets its oldest one |
| AckWindow.AckWindow.Acknowledge | src/window.cpp:83-143 | in both layouts the record with that number is found, reported with the time since, and dropped together with all older ones; otherwise nothing changes |
| UnitQueue.UnitQueue.constructor | src/queue.cpp:85-125 | one block of free units |
| UnitQueue.UnitQueue.Recount | src/queue.cpp:129-145 | recounting the flagged units finds what the counter says |
| UnitQueue.UnitQueue.Increase | src/queue.cpp:127-186 | a block of free units joins the cycle exactly when nine tenths are occupied; occupied units and the counter stay |
| UnitQueue.UnitQueue.GetNextAvailUnit | src/queue.cpp:194-223 | the unit handed out is the first free one at or after the position looked at, block by block, and the position moves to it; none is handed out exactly when the pool did not grow on entry and every unit looked at is occupied |
| UnitQueue.LastUnitMissed | src/queue.cpp:194-223 | with one block whose last unit alone is free none is found, and the pool does not grow before either if and only if the block has at most ten units |
| UnitQueue.FreeUnitMissed | src/queue.cpp:194-223 | a pool of two units reports none while one is free |
| RcvBuffer.RcvBuffer.constructor | src/buffer.cpp:346-358 | an empty buffer |
| RcvBuffer.RcvBuffer.AddData | src/buffer.cpp:374-389 | a packet is stored in its slot unless the slot is taken; unit flag, counter and furthest position follow; units of other buffers stay |
| RcvBuffer.RcvBuffer.ReadBuffer | src/buffer.cpp:391-426 | the next bytes of the acknowledged packets are copied out from the notch on, and read packets free their units |
| RcvBuffer.RcvBuffer.AckData | src/buffer.cpp:467-475 | the acknowledged part grows, the furthest position is measured from its new end |
| RcvBuffer.RcvBuffer.GetAvailBufSize | src/buffer.cpp:477-489 | the free space: all slots but one, less what is acknowledged and unread |
| RcvBuffer.RcvBuffer.ScanMsg | src/buffer.cpp:546-652 | what cannot be read at the beginning is skipped and freed, and the first message that may be handed out is found; otherwise true comes back if and only if one message without a deliverable end fills the buffer, with an empty stretch of slots |
| RcvBuffer.RcvBuffer.GetRcvMsgNum | src/buffer.cpp:539-544 | the answer is 1 exactly when readMsg would hand out a message, or one message fills the buffer, when it would not |
| RcvBuffer.RcvBuffer.ReadMsg | src/buffer.cpp:498-537 | the found message is copied as far as it fits, and its units are freed, or marked read when it is not fully acknowledged |
| RcvBuffer.SharedCount | src/queue.h:126 | for buffers sharing a queue, each as its model says, the counter of the pool is the number of occupied slots of all of them |
| RcvBuffer.SharedKept | src/buffer.cpp:374-593 | when one buffer takes or frees units and leaves those of the others alone, all buffers on the queue still hold what their models say, no unit sits in two slots and none is flagged without one |
| RcvBuffer.Attach | src/core.cpp:763 | a new connection joins the queue with an empty buffer |
| RcvBuffer.AddDataTo | src/buffer.cpp:374-389 | storing a packet in one buffer keeps all buffers on the queue as their models say, with disjoint units that are exactly the flagged ones |
| RcvBuffer.ReadBufferOf | src/buffer.cpp:391-426 | reading bytes from one buffer does |
| RcvBuffer.ReadMsgOf | src/buffer.cpp:498-537 | reading a message from one buffer does |
| SndUList.SndUList.InsertNode | src/queue.cpp:355-401 | a node not yet on the heap joins it at the end and moves up past every later parent, positions staying the exact inverse of the heap array; order is kept |
| SndUList.SndUList.Insert | src/queue.cpp:255-280 | the same, doubling a full array |
| SndUList.SndUList.RemoveNode | src/queue.cpp:403-437 | the node leaves the heap; order is kept if and only if the last entry is not earlier than the parent of the hole |
| SndUList.SndUList.Update | src/queue.cpp:282-304 | the socket is on the schedule, as early as possible when rescheduled; rescheduling an inner node keeps order if and only if the entry moved into its place finds an earlier parent there, or gets one as the rescheduled one moves up |
| SndUList.SndUList.Pop | src/queue.cpp:306-336 | the socket served is due, was the earliest of all if the heap was in order, and the heap stays in order; it is scheduled again exactly when it is connected, sent something and wants to be served again |
| SndUList.RootIsEarliest | src/queue.cpp:311-318 | in an ordered heap no entry is earlier than the root |
| SndUList.ReinsertIff | src/queue.cpp:282-304 | the exact condition under which taking an inner entry out and putting it back first restores an order that the removal broke |
| SndUList.Schedule | src/queue.cpp:255-280 | sockets inserted one after the other with time stamps in heap order stay where they are put |
| SndUList.InteriorRemovalBreaksOrder | src/queue.cpp:403-434 | seven sockets scheduled one after the other, and the removal of one leaves the heap out of order |
| SndModel.AddBufferTiles | src/buffer.cpp:120-155 | the messages accepted lie one behind the other and make up all chunks |
| SndModel.MessageIsCall | src/buffer.cpp:120-155 | every stretch of chunks from a first to a last mark is what one call stored |
| RcvModel.NextExpectedBounds | src/core.cpp:1747-1752 | the ACK number is the smallest missing number, and everything unread before it is stored |
| RcvModel.DataAdvances | src/core.cpp:2385-2448 | arriving data never moves the ACK number back |
| MsgModel.SkipPassesOnlyRead | src/buffer.cpp:552-593 | skipping at the beginning throws away packets of messages already read only, and stops at the beginning of an unread message |
| MsgModel.SearchSound | src/buffer.cpp:595-640 | a message found is complete, unread, and acknowledged or not bound to order |
| MsgModel.SearchComplete | src/buffer.cpp:595-640 | if some message may be handed out, one that ends no later is found |
| MsgModel.ReadMsgReturnsIff | src/buffer.cpp:498-652 | a call returns a message if and only if one may be handed out, except that a buffer holding at most one unacknowledged packet counts as empty |
| Connection.StepGood | src/core.cpp:1739-2448 | every atomic step of either end, and every loss, duplication and reordering, keeps the invariant of both ends and the network |
| Connection.Reachable | src/core.cpp:746-766 | every state that any run reaches from the start of a connection satisfies it |
| Steps.SendsNewIff | src/core.cpp:2311-2345 | in every reachable state a new packet goes out if and only if no lost number is in hand, with it the unacknowledged packets are at most both windows, and it has been accepted; it is the next one |
| Steps.CwndBoundsFlight | src/core.cpp:2315-2316 | with congestion windows of at most w no run ever has more than w packets unacknowledged |
| Steps.PopsSmallest | src/core.cpp:2275 | the smallest lost number is taken off the list and in hand |
| Steps.ResendsIff | src/core.cpp:2277-2310 | a number in hand is sent again, with its chunk, if and only if it has not been released meanwhile |
| Steps.ExpSchedules | src/core.cpp:2614-2626 | the EXP timer schedules exactly the unacknowledged numbers if nothing is scheduled, and otherwise nothing |
| Steps.LiteAckTaken | src/core.cpp:1968-1979 | a lite ACK moves the window start to the larger of it and its number, the end of the window and all else stay |
| Steps.AckStaysTaken | src/core.cpp:1968-2011 | in every run, whatever follows, the window starts no earlier than at the number of an ACK that was taken in |
| Steps.FullAckTaken | src/core.cpp:1986-2011 | a full ACK moves the window start likewise, sets the window unless it is behind, waits for AckLock, and may be answered with ACK2 |
| Steps.BusyWaits | src/core.cpp:2013-2036 | no ACK, loss report or EXP timer has an effect while an ACK waits for AckLock |
| Steps.ReleasesAcked | src/core.cpp:2013-2036 | the AckLock section releases exactly what the waiting ACK acknowledges, and forgets exactly its losses |
| Steps.NakTaken | src/core.cpp:2111-2165 | a loss report schedules exactly those of its numbers that are not acknowledged |
| Steps.DataTaken | src/core.cpp:2409-2448 | a packet is stored if and only if it lies in the free part of the buffer and is not there yet; what it shows to be missing is recorded and reported, exactly |
| Steps.LiteAckSent | src/core.cpp:1754-1765 | a lite ACK carries the smallest missing number and goes out if and only if that is not the number known to be used |
| Steps.FullAckSent | src/core.cpp:1767-1836 | whether or not the repeat interval has passed: a full ACK goes out and is recorded if and only if the smallest missing number is ahead of the one known to be used as the code compares them and has moved on, or the interval has passed; it carries that number and the free space, at least 2, and everything before it can be read |
| Steps.Ack2Taken | src/core.cpp:2085-2106 | a matched ACK2 drops its record and all older ones, and raises the number known to be used if and only if the reading is positive and the number ahead |
| Steps.Ack2Unknown | src/core.cpp:2085-2106 | an ACK2 without a record changes nothing |
| Steps.ReadTakes | src/buffer.cpp:391-426 | a read returns as many bytes as asked for, or all that are acknowledged, and frees exactly the packets it finishes |
| Steps.ReadMsgTakes | src/buffer.cpp:498-593 | a call returns at most one message, the deliverable one that ends first; it frees exactly what it passes and marks the packets of a message not fully acknowledged |
| Steps.AcceptQueues | src/buffer.cpp:120-164 | accepted bytes join behind all others, cut into as few packets as possible |
| Delivery.PrefixDelivery | src/core.cpp:2263-2448 | in stream mode the bytes read are always a prefix of the bytes accepted |
| Delivery.TransmissionsAgree | src/core.cpp:2275-2336 | every transmission of a sequence number carries the same chunk |
| Delivery.NoEarlyRelease | src/core.cpp:1998-2034 | a chunk is released only when the receiver stores it or has passed it on |
| Delivery.NeverBroken | src/core.cpp:1997-2165 | between two ends running this code the "attack or bug" branches on ACK and on loss report are never taken |
| Delivery.SuppressedAckWasUsed | src/core.cpp:1754-1805 | for windows below the threshold an ACK is suppressed as used only when the sender's window already starts at that number; the number known to be used is released unless its ACK still waits for AckLock |
| Delivery.FullAckGoesOutIff | src/core.cpp:1754-1805 | for windows below the threshold, once the repeat interval has passed, a full ACK goes out if and only if its number is ahead of the number known to be used as the code compares them: by less than the threshold, or at most two more across a wrap |
| Delivery.OvertakenIff | src/core.cpp:2085-2106 | a step makes the receiver know of an unreleased ACK if and only if it is a matched ACK2 of an ACK above the release, with a positive reading |
| Delivery.Ack2OvertakesIff | src/core.cpp:1986-2014 | some run gets there if and only if the buffer has two slots and the initial window admits a packet |
| Delivery.LossListIsExactlyTheGaps | src/core.cpp:2409-2445 | each number from the last ACK through the largest received is in exactly one of loss list and buffer, nothing lies beyond, and what fills a gap is in the loss list |
| Delivery.ReceiverSpan | src/core.cpp:2409-2445 | what the receiver stores or misses spans less than its buffer |
| Delivery.SenderSpan | src/core.cpp:1969-2034 | the three acknowledgement marks stay in order; scheduled retransmissions span less than the widest window given, unreleased packets at most that, or twice that while an ACK waits for AckLock |
| Windows.WindowGrowsIff | src/core.cpp:2006-2014 | some run has more unreleased than the widest window given if and only if the buffer has two slots and the initial window admits a packet |
| Windows.UnreleasedIff | src/core.cpp:2006-2014 | no run has more than n packets unreleased if and only if n is at least the widest window and one advertised buffer together, for all sizes |
| Windows.ScheduledApartIff | src/core.cpp:2616-2625 | some run schedules two retransmissions n numbers apart if and only if n is below the widest window |
| Windows.MissingApartIff | src/core.cpp:2409-2436 | some run misses two packets n numbers apart if and only if n is at most the buffer less three |
| Windows.SlotsSharedIff | src/core.cpp:763-764 | with the window set by the handshake two numbers come to share a slot of the sender's loss list, or of the receiver's, if and only if the buffer exceeds the flight flag size by the stated amount |
| Known.KnownNeverFalls | src/core.cpp:2085-2106 | the number known to be used never falls, whatever ACK2s arrive in whatever order |
| Known.NeverLapped | src/core.cpp:1754-1805 | the ACK number is never a whole turn of the numbers ahead of it |
| RightEdge.RefusalFreeIff | src/core.cpp:2409-2411 | without a raised window field no packet is ever refused for lack of space if and only if the initial window is smaller than the receive buffer |
| RightEdge.StepWithinEdge | src/core.cpp:1969-2011 | every step keeps the sender's right edge, the advertised edges and all packets in flight within the receiver's edge, or within two of it when a window field was raised |
| RightEdge.FullBufferWindowOverruns | src/core.cpp:2315-2316 | with a window as large as the buffer the last packet of the first window can be refused |
| RightEdge.FlooredAckOverruns | src/core.cpp:1812-1814 | for all sizes and every window of at least 1, filling the buffer without reading leads to a refusal |
| RightEdge.NeverRefusesIff | src/core.cpp:1812-1814 | over all runs no packet is ever refused for lack of space if and only if the initial window is 0 |
| RightEdge.WithinTwoIff | src/core.cpp:1812-1814 | all runs stay within two packets of the receiver's edge if and only if the initial window is at most one more than the buffer |
| Recovery.AlwaysRecoverable | src/core.cpp:2616-2625 | after every run that ends with the ACK number below the threshold ahead of the number known to be used, with everything in flight lost, some continuation delivers all accepted bytes, if and only if the buffer has two slots and the initial window admits a packet |
| Recovery.StallsWithoutAck2 | src/core.cpp:1802-1803 | for every initial number a run that reaches the threshold, after which no continuation delivers all accepted bytes |
| Recovery.RecoveryLimit | src/core.cpp:1802-1803 | every run within a limit recovers if and only if the limit is at most the threshold |
| MessageRecovery.MessagesRecoverIff | src/buffer.cpp:498-652 | in message mode, after every such run some continuation reads every message sent, if and only if each has fewer packets than the buffer has slots and the initial window admits a packet |
| MessageRecovery.MessageLimit | src/core.cpp:1802-1803 | that holds for every run within a limit if and only if the limit is at most the threshold |
| Messages.ReadIsSent | src/buffer.cpp:498-537 | each message read is one message sent, cut only by the room given, and one read before it was fully acknowledged was not bound to order |
| Messages.NoDuplicates | src/buffer.cpp:525-531 | no message is read twice |
| Messages.NothingDiscardedUnread | src/buffer.cpp:552-593 | no message is discarded unread |
| Messages.OrderedMessagesInOrder | src/buffer.cpp:629-635 | after a message bound to order only messages sent later are read |
| Messages.EarlierWereRead | src/buffer.cpp:595-640 | a fully acknowledged message is read only after everything before it |
| Messages.MessageNumbers | src/buffer.cpp:161-163 | in every run the j-th message has the number j modulo 0x1FFFFFFE plus one, and all its packets carry it |
| Messages.NumbersDiffer | src/buffer.cpp:161-163 | in every run two messages less than 0x1FFFFFFE apart have different numbers |
| Messages.ScanMisledIff | src/buffer.cpp:643-651 | some run makes scanMsg report a message that readMsg does not hand out, if and only if the buffer has three slots and the initial window admits a packet |
| Sender.Sender.constructor | src/core.cpp:746-764 | the sending end at the start of a connection, with a buffer and a loss list of its own |
| Sender.Sender.Send | src/core.cpp:1013-1110 | accepted data is queued behind what is queued already |
| Sender.Sender.GetLost | src/core.cpp:2275 | the smallest lost number is taken off the list, -1 if there is none |
| Sender.Sender.PackLost | src/core.cpp:2277-2310 | the chunk of a lost number is retransmitted unless it was released meanwhile |
| Sender.Sender.PackNew | src/core.cpp:2311-2345 | the next chunk goes out under the next number if and only if with it the unacknowledged numbers are at most the flow window and at most the congestion window, and some chunk is unsent |
| Sender.Sender.OnLiteAck | src/core.cpp:1968-1979 | a lite ACK that is not behind moves the window start to its number and shrinks the window by as much; any other changes nothing |
| Sender.Sender.OnFullAck | src/core.cpp:1994-2011 | a full ACK of what was not sent breaks the connection and moves nothing; any other one that is not behind sets the window start and the window to what it carries |
| Sender.Sender.CommitAck | src/core.cpp:2013-2036 | acknowledged chunks are released and their losses forgotten, a repeated ACK changes nothing |
| Sender.Sender.OnNak | src/core.cpp:2111-2165 | a loss report is decoded entry by entry, up to an entry that cannot be right |
| Sender.NaksInsertExactly | src/core.cpp:2120-2157 | a report without an entry that is out of order or beyond what was sent puts exactly those of its numbers on the loss list that are not yet acknowledged |
| Sender.NaksStop | src/core.cpp:2120-2157 | the first entry that is out of order or beyond what was sent breaks the connection; exactly the entries before it count |
| Sender.Sender.OnExp | src/core.cpp:2614-2626 | the EXP timer schedules everything unacknowledged if the loss list is empty |
| Receiver.Receiver.constructor | src/core.cpp:751-765 | the receiving end at the start of a connection, with a buffer, a loss list and an ACK window of its own |
| Receiver.Receiver.OnData | src/core.cpp:2409-2448 | a packet is refused or stored, a gap before it is recorded and reported, a filled gap is forgotten |
| Receiver.Receiver.AckNo | src/core.cpp:1747-1752 | the ACK number is the smallest missing number |
| Receiver.Receiver.SendLiteAck | src/core.cpp:1754-1765 | a lite ACK goes out unless that number is known to be used |
| Receiver.Receiver.SendFullAck | src/core.cpp:1754-1836 | the acknowledged part of the buffer grows, and a full ACK with the free space, at least 2, goes out, with its exceptions; one that goes out is recorded with its numbers and the time, and a full window forgets its oldest record |
| Receiver.Receiver.OnAck2 | src/core.cpp:2085-2106 | the time measured is positive exactly when the ACK2 matches a recorded ACK sent earlier; the number of that ACK becomes the one known to be used exactly when, besides, it is ahead of it |
| Receiver.Receiver.Read | src/core.cpp:1122-1207 | the application reads the next bytes of the stream |
| Receiver.Receiver.ReadMsg | src/core.cpp:1312-1410 | the application reads the next message |
| Link.NegotiatedSizesFitIff | src/core.cpp:602 | the sizes set up by the handshake hold everything the proofs need if and only if the buffer is at most the flight flag size |
| Link.Link.constructor | src/core.cpp:746-766 | both ends at the start of a connection, newly made, represent the initial state of the model |
| Link.Link.Send | src/core.cpp:1013-1110 | handing over data refines the model's step from every state the two ends can be in |
| Link.Link.GetLost | src/core.cpp:2275 | looking for a lost packet refines the model's step, and the smallest lost number comes back, -1 exactly when nothing is lost |
| Link.Link.PackLost | src/core.cpp:2277-2310 | retransmitting refines the model's step, and the packet that goes out is the one the network may then deliver |
| Link.Link.PackNew | src/core.cpp:2311-2345 | sending a new packet refines the model's step: it goes out if and only if both windows admit it and a chunk is unsent, and is the one the network may then deliver |
| Link.Link.TakeLiteAck | src/core.cpp:1968-1979 | any recent lite ACK in flight refines the model's step on arrival |
| Link.Link.TakeFullAck | src/core.cpp:1994-2011 | any recent full ACK in flight refines the model's step on arrival and never breaks the connection |
| Link.Link.Release | src/core.cpp:2013-2036 | the AckLock section refines the model's step; every chunk it releases has been sent |
| Link.Link.TakeNak | src/core.cpp:2111-2165 | any recent loss report in flight refines the model's step on arrival, fits the loss list and never breaks the connection |
| Link.Link.Expire | src/core.cpp:2614-2626 | the EXP timer refines the model's step, and what it schedules fits the loss list |
| Link.Link.Fill | src/queue.cpp:1014 | writing the next packet into a free unit changes nothing for the two ends |
| Link.Link.TakeData | src/core.cpp:2385-2448 | any recent data packet in flight refines the model's step on arrival, and the report that goes out is the one the network may then deliver; each new gap lies above all recorded ones and fits the loss list |
| Link.Link.LiteAck | src/core.cpp:1754-1765 | from every state a lite ACK goes out exactly when the model sends one, and is the one the network may then deliver |
| Link.Link.FullAck | src/core.cpp:1754-1836 | from every state a full ACK refines the model's step, is the one the network may then deliver, and is recorded with the time |
| Link.Link.TakeAck2 | src/core.cpp:2085-2106 | any recent ACK2 in flight refines the model's step on arrival, with a positive reading exactly when the recorded ACK was sent earlier |
| Link.Link.Read | src/core.cpp:1122-1207 | reading refines the model's step, and all bytes read so far are a prefix of the bytes accepted |
| Link.Link.ReadMsg | src/core.cpp:1312-1410 | reading a message refines the model's step and hands out the bytes of the message returned, or none |
| Link.ReportRoundTrip | src/list.cpp:682-703 | decoding what the receiver writes of its loss list inserts at the sender exactly the numbers of the stretches written that are not yet acknowledged |
| Link.Transfer | src/core.cpp:1013-1207 | a client of both ends: what one application sends in one packet, the other one reads |
| Md5.Round1 | src/md5.cpp:206-222 | the unrolled first round does operations 0 to 15 of the specification, with its word order, shifts and constants |
| Md5.Round2 | src/md5.cpp:232-248 | the same for operations 16 to 31 |
| Md5.Round3 | src/md5.cpp:258-274 | the same for operations 32 to 47 |
| Md5.Round4 | src/md5.cpp:284-300 | the same for operations 48 to 63 |
| Md5.Md5State.Process | src/md5.cpp:131-310 | one block of 64 bytes |
| Md5.Md5State.constructor | src/md5.cpp:312-320 | the state of the empty message |
| Md5.Md5State.Append | src/md5.cpp:322-358 | the state of the message so far becomes the state of the longer message, whatever is pending in the buffer; the count is 8 times the length modulo 2^64 |
| Md5.SplitDoesNotMatter | src/md5.cpp:322-358 | appending in pieces and at once lead to the same count, registers and pending bytes |
| Md5.PadFormula | src/md5.cpp:376 | the padding formula gives the 1 to 64 bytes that reach 56 modulo 64 |
| Md5.Md5State.Finish | src/md5.cpp:360-381 | the digest of RFC 1321 of everything appended |
| Md5.Compute | src/common.cpp:758-765 | the digest of RFC 1321 of the input |

## Left out

- Message time-to-live, drop requests and `dropMsg`: the source computes the end of the dropped range as first number plus message length and compares message numbers together with their flag bits; a time-to-live of -1 is modelled.
- `CRcvLossList::remove` of a stretch: it serves drop requests only.
- File transfer (`addBufferFromFile`, `readBufferToFile`, `sendfile`, `recvfile`): input and output.
- Threads, locks, wake-ups, blocking waits and timers: replaced by atomic steps in any order.
- The congestion controller, and the estimators of round-trip time, bandwidth and arrival rate: floating point; their outputs are parameters.
- Handshake, rendezvous, cookies, keep-alive, shutdown, socket tables and epoll: only the state they leave at the start of a connection is used.
- Periodic loss reports: disabled in the source, so each report in the connection model carries one stretch; `Sender.Sender.OnNak` decodes any number of them.
- Memory of packet payloads: a block or unit holds its bytes as a value, so the buffers behind `m_pcData` and allocation failures are not modelled.
- `CUDT::send`, `recv`, `sendmsg`, `recvmsg`: the checks of socket state, the limit on queued data and the waiting around the buffer calls are not modelled.
- SndUList.SndUList.Update: requires a free slot in the array for a socket that is not scheduled, as the source presumes when it does not grow the array there.
- SndUList.SndUList.Pop: the address copied out and the packet are not modelled; `packData` is `Link.Link.PackNew`, its outcome a parameter here.
- UnitQueue.UnitQueue.Increase: compares the quotient without rounding; for 31-bit counts the rounded quotient gives the same answer.
- Md5.Md5State.Append: requires a piece short enough for the source's `int` sum of offset and length.
- `CCache`, `CPktTimeWindow`, statistics counters and the applications under `app/`: not part of the transfer.
- Liveness under fair scheduling: `Recovery.AlwaysRecoverable` and `MessageRecovery.MessagesRecoverIff` show that a delivering continuation always exists, not that every fair run is one.
