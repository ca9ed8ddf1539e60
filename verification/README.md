# Transport stack of the cloud communication SDK: a verified model

Dafny models of the parts of the SDK that carry bytes between a device and the cloud, and proofs of what those parts
promise. `dafny verify dfyconfig.toml` checks the whole project.

Each component that the SDK updates in place is a class here, with the same fields, branches and loops. Its methods
are proved against functions on values, and the theorems are about those functions, over every input, every run or
every interleaving.

| component | modules |
|---|---|
| UART receive ring: interrupt, search, line finder, concurrent read | `UartRing`, `UartInterleaving`, `Patterns` |
| Single-producer single-consumer ring with wrapping counters | `SpscRing` |
| TOBY-L201 direct-link disconnect detector, on top of the UART ring | `DisconnectDetector`, `OnePassScan`, `DirectLinkLayer` |
| SMS segmentation and reassembly | `SmsSegmentation`, `SmsReassembly` |
| SMS PDU codec (3GPP TS 23.040) | `SmsCodec` |
| Payload to callback, through segments and PDUs | `SmsEndToEnd` |
| OTT framing and session machine | `OttFraming`, `OttSession`, `OttDevice` |
| Hash index of the OEM profile tables | `OemIndex` |

What a network, a modem or an application does is a parameter: a list of read results, connection attempts and
reactions of callbacks, over which the theorems quantify. Callbacks may call back into the protocol.

## Where the code does less than it means to

Each of these is stated by a lemma, together with when the code does meet the intention.

- The segment count includes the header twice, so payloads of 261 to 264 and 395 to 398 bytes go out in one segment
  too many, and the last one carries bytes from behind the caller's buffer
  (`SegmentsCoverExactlyUnlessOvercounted`, `DeliversExactlyUnlessOvercounted`).
- The one-pass extraction passes over a disconnect string that overlaps a failed match, and drops the data in front of
  it (`ScanIsIncomplete`). It also drops the data when the three bytes behind the string have not come in yet, as can
  happen when the callback runs in the middle of a stream (`CutTrailerLosesData`). `RescueIsExact` says when the data is
  rescued.
- A second lookup over unchanged bytes forgets a partial match, so the one-second wait meant for that case is entered
  only when the match has moved (`RepeatedLookupForgets`). After a split disconnect string, one receive takes the data
  in front, and the next hands out the string's front; the rest is then not recognised (`SecondReceiveReleases`,
  `RestIsMissed`). `AlwaysHoldsBackExactly` says when the front is held back.
- When the partial state is given up, a receive writes all unread bytes, whatever the size of the caller's buffer; the
  model returns those behind the buffer separately. Once the match has moved, every buffer smaller than the ring can be
  overrun (`NeverOverfillsExactly`, `NeverOverfillsInSync`, `OverfillsByOne`).
- The ring with free-running counters is a queue only if its capacity divides the range of the counters
  (`FifoExactlyWhenCapacityDividesWord`).
- A rejecting last message whose quit callback acknowledges, or a send callback that acknowledges after rejecting,
  leaves an acknowledgement pending after maintenance, because the final quit does nothing in a session that has
  already been reset (`MaintenanceEndsClearExactlyWhenQuiet`).
- The line finder starts its second search past the last cell when the header ends at or behind the end of the buffer
  (`LineAvail`).
- A poll that is answered with an announcement but no acknowledgement can leave `pend_bit` set, because quitting does
  nothing in a session that is not authenticated (`MaintenanceIsExact`, `AnnouncingStrands`).
- The SMS decoder writes as much as a PDU announces, so addresses of more than 21 digits and payloads of more than 140
  bytes run over its buffers, and its loop over an address of 255 digits never ends (`StaysInBuffersExactly`,
  `AcceptedStaysInBuffersExactly`, `AddrLoopEnds`). The model takes the buffers with the memory behind them.
- A message that fills the OTT receive buffer without being complete is processed over and over while more bytes wait
  in the channel, and maintenance may never end (`OverlongUpdateNeverEnds`, `DrainNeverEnds`). The model says so in a
  result of its own; the theorems about how maintenance ends are about maintenance that does.
- An OTT connection attempt that fails at the server's name leaves its socket open with `conn_done` false
  (`SocketIsLeftBehind`, `SocketMeansConnectionUnlessLeft`).
- The service message made from a polling or sleep command is one byte longer than the command by what the application
  is told, and four bytes longer in the buffer, so three of the four interval bytes are outside it
  (`ToldWholeExactlyUnlessCommand`, `IntervalIsCut`).
- An OTT update of size 0 passes the validity test but is never complete (`EmptyUpdateNeverCompletes`).

Where comments and code disagree the model follows the code: the line finder's header is described as optional but is
always dereferenced, so it is always present here; `write_to_modem` is described as failing after retries but always
reports success; end of stream on the OTT channel is taken as a message and processes what the buffer held before; a
session established without polling may already have been closed again by the peer.

## Model

| member | source | states |
|---|---|---|
| `UartRing.Ring.RxChar` | sdk/cloud_comm/src/network/at/core/uart_util.c:44-65 | the receive interrupt appends the byte to the unread bytes, or reports overflow and changes nothing, exactly when the ring is full |
| `UartRing.Ring.Read` | sdk/cloud_comm/src/network/at/core/uart_util.c:235-267 | returns the oldest min(size, unread) bytes in order, leaves the rest unread and unchanged, writes nothing behind them; the error code for a missing buffer |
| `UartRing.Ring.CopyOut` | sdk/cloud_comm/src/network/at/core/uart_util.c:251-259 | the copy loop across the wrap: the destination gets the unread bytes in order while the unread count is still untouched |
| `UartRing.Ring.FindSubstr` | sdk/cloud_comm/src/network/at/core/uart_util.c:147-180 | from any start cell, across the wrap and with a full ring: the index of the first occurrence of the pattern among the bytes up to the write index, or -1 exactly when there is none; terminates on (candidate, progress) |
| `UartRing.Ring.FindPattern` | sdk/cloud_comm/src/network/at/core/uart_util.c:182-191 | argument errors, the empty ring, and the search from the beginning seen as a search of the unread bytes |
| `UartRing.Ring.ScannedIsUnread` | sdk/cloud_comm/src/network/at/core/uart_util.c:147-180 | a search that starts inside the unread region looks at exactly the unread bytes from there on |
| `UartRing.Ring.LineAvail` | sdk/cloud_comm/src/network/at/core/uart_util.c:193-233 | the length computed from the two ring indices is the span in the linear text, with every error case; exact condition for the second search starting past the last cell |
| `UartRing.AnswerIsShortest` | sdk/cloud_comm/src/network/at/core/uart_util.c:193-233 | when the unread bytes open with the header the answer is the shortest header-body-trailer prefix, and 0 iff there is none, also when header equals trailer |
| `UartRing.AnswerMeans` | sdk/cloud_comm/src/network/at/core/uart_util.c:193-233 | where the header is among the unread bytes: 0 iff no trailer follows the front or it is found at the header itself; the bytes from header to end of trailer if it comes later; and too many by a trip round the ring otherwise |
| `UartInterleaving.EveryRunIsFifo` | sdk/cloud_comm/src/network/at/core/uart_util.c:44-65 | every interleaving of interrupts with the single steps of a read returns a prefix of the accepted bytes, keeps the rest intact in the ring out of reach of the next store, and satisfies the deferred book-keeping equation modulo 1024 |
| `UartInterleaving.EveryStepRefinesQueue` | sdk/cloud_comm/src/network/at/core/uart_util.c:235-267 | each single step of each run is an enqueue, a dequeue or nothing on the abstract queue; a byte is refused only when the counted bytes fill the ring |
| `UartInterleaving.ReadDelivers` | sdk/cloud_comm/src/network/at/core/uart_util.c:235-267 | a read that completes among interrupts hands out between min(size, unread at its start) and size bytes |
| `SpscRing.Rbuf.WriteByte` | sdk/cloud_comm/src/network/at/sqmonarch/tcp/rbuf.c:34-44 | refuses at capacity, otherwise stores at the write counter modulo the capacity and advances it in the machine word |
| `SpscRing.Rbuf.ReadByte` | sdk/cloud_comm/src/network/at/sqmonarch/tcp/rbuf.c:46-56 | refuses when empty, otherwise returns the cell at the read counter and advances it in the machine word |
| `SpscRing.Rbuf.UnreadCount` | sdk/cloud_comm/src/network/at/sqmonarch/tcp/rbuf.c:58-63 | the difference of the free-running counters in the machine word |
| `SpscRing.FifoExactlyWhenCapacityDividesWord` | sdk/cloud_comm/src/network/at/sqmonarch/tcp/rbuf.c:34-63 | over all interleavings of both sides: reads return the written bytes in order if and only if the capacity divides the range of the counters (or is 0) |
| `SpscRing.OccupancyIsExact` | sdk/cloud_comm/src/network/at/sqmonarch/tcp/rbuf.c:58-63 | in every run the computed occupancy is the true number of bytes stored and never exceeds the capacity |
| `SpscRing.LosesOrder` | sdk/cloud_comm/src/network/at/sqmonarch/tcp/rbuf.c:34-56 | for every other capacity, a run across the counter wrap that returns bytes in the wrong order |
| `DirectLinkLayer.DirectLink.LookupDlEscStr` | sdk/cloud_comm/src/network/at/toby201/tcp/at_toby201_tcp.c:96-167 | the loop over growing prefixes computes the state transition for the longest prefix in the ring |
| `DisconnectDetector.LookupClassifies` | sdk/cloud_comm/src/network/at/toby201/tcp/at_toby201_tcp.c:96-167 | afterwards the state is full iff the whole disconnect string is unread, and partial only with the length of the longest non-empty prefix occurring there |
| `DisconnectDetector.RepeatedLookupForgets` | sdk/cloud_comm/src/network/at/toby201/tcp/at_toby201_tcp.c:130-155 | a second lookup over the same bytes drops the partial state exactly when it finds the match where it was recorded |
| `DirectLinkLayer.DirectLink.NextByte` | sdk/cloud_comm/src/network/at/toby201/tcp/at_toby201_tcp.c:213-219 | one byte moves from ring to side buffer, unless a mismatch left it there for a second look; nothing is lost or reordered |
| `DirectLinkLayer.DirectLink.ExtractUntilFound` | sdk/cloud_comm/src/network/at/toby201/tcp/at_toby201_tcp.c:204-242 | the extraction loop terminates, computes the one-pass scan, and has moved exactly the bytes it looked at |
| `DirectLinkLayer.DirectLink.XferToBuf` | sdk/cloud_comm/src/network/at/toby201/tcp/at_toby201_tcp.c:181-270 | the whole layer afterwards, in every branch: rescued data, what stays in the ring and where, after the modem lines that are then read |
| `OnePassScan.ScanIsSound` | sdk/cloud_comm/src/network/at/toby201/tcp/at_toby201_tcp.c:204-242 | whatever the scan reports is a genuine occurrence of the disconnect string |
| `DisconnectDetector.SalvageIsGenuine` | sdk/cloud_comm/src/network/at/toby201/tcp/at_toby201_tcp.c:181-270 | rescued data is exactly the stream in front of a genuine disconnect string, and what stays behind is exactly what follows the string and its trailer |
| `OnePassScan.ScanFindsFirstCatchable` | sdk/cloud_comm/src/network/at/toby201/tcp/at_toby201_tcp.c:204-242 | the loop finds exactly the first occurrence that is not overrun, that is, does not begin where a piece of the string ends that the loop is still matching |
| `OnePassScan.FirstIsFoundUnlessOverrun` | sdk/cloud_comm/src/network/at/toby201/tcp/at_toby201_tcp.c:204-242 | the very first disconnect string is found iff it is not overrun |
| `OnePassScan.NothingFoundExactlyWhenAllOverrun` | sdk/cloud_comm/src/network/at/toby201/tcp/at_toby201_tcp.c:204-242 | nothing is found iff every occurrence is overrun |
| `DisconnectDetector.RescueIsExact` | sdk/cloud_comm/src/network/at/toby201/tcp/at_toby201_tcp.c:181-270 | the data in front of the first disconnect string is rescued iff that string is not overrun and its three trailing bytes have come in; what follows them is then kept |
| `DisconnectDetector.CutTrailerLosesData` | sdk/cloud_comm/src/network/at/toby201/tcp/at_toby201_tcp.c:252-268 | a stream in which the string is not overrun and the data is lost because the trailer has not come yet |
| `DisconnectDetector.ScanIsIncomplete` | sdk/cloud_comm/src/network/at/toby201/tcp/at_toby201_tcp.c:204-242 | the disconnect string itself can be overrun: a stream in which it occurs and is missed |
| `DisconnectDetector.OverlapIsMissed` | sdk/cloud_comm/src/network/at/toby201/tcp/at_toby201_tcp.c:204-242 | why: the scan resumes at the mismatching byte, so an occurrence that overlaps the failed match is passed over |
| `DirectLinkLayer.DirectLink.ProcessIntrBuffer` | sdk/cloud_comm/src/network/at/toby201/tcp/at_toby201_tcp.c:641-653 | successive calls return the rescued bytes in order, each once |
| `DirectLinkLayer.DirectLink.UartCallback` | sdk/cloud_comm/src/network/at/toby201/tcp/at_toby201_tcp.c:272-291 | the whole layer after the serial callback: lookup, extraction on a full match, or modem lines read outside direct-link mode |
| `DirectLinkLayer.DirectLink.ProcessRcvDlPartial` | sdk/cloud_comm/src/network/at/toby201/tcp/at_toby201_tcp.c:672-751 | the whole decision in the partial state: every branch before the wait, the wait with any interrupts, every branch after it |
| `DirectLinkLayer.DirectLink.Delay` | sdk/cloud_comm/src/network/at/toby201/tcp/at_toby201_tcp.c:710-710 | what any interrupts during the wait, bytes, idle lines and overflows, make of the layer |
| `DirectLinkLayer.DirectLink.TestAfterDelay` | sdk/cloud_comm/src/network/at/toby201/tcp/at_toby201_tcp.c:712-751 | the decision after the wait, in each of its branches, and what it resets |
| `DirectLinkLayer.DirectLink.TcpRecv` | sdk/cloud_comm/src/network/at/toby201/tcp/at_toby201_tcp.c:754-805 | for any buffer size, in every state and with any interrupts during the wait: the result, the buffer, what is written behind it, the whole layer. Stated outright: in direct mode outside the partial state with a 16-bit size, and in the partial state with anything beyond the match, the buffer gets exactly the oldest min(size, allowed) bytes, nothing is written behind it, the rest stays, and the result is that count, or -1 iff it is 0 |
| `DisconnectDetector.ReceivesOutsidePartial` | sdk/cloud_comm/src/network/at/toby201/tcp/at_toby201_tcp.c:774-805 | outside the partial state a receive hands out exactly the oldest min(size in 16 bits, unread) bytes, whatever comes in, and leaves all else |
| `DisconnectDetector.ReceivesBeyondMatch` | sdk/cloud_comm/src/network/at/toby201/tcp/at_toby201_tcp.c:672-686 | in the partial state with anything beyond the match: exactly the oldest min(size, unread - matched) bytes |
| `DisconnectDetector.ReceivesGivenUp` | sdk/cloud_comm/src/network/at/toby201/tcp/at_toby201_tcp.c:672-705 | where the partial state is given up before any wait: everything unread, and what the detector then is |
| `DisconnectDetector.ReceivesAfterMove` | sdk/cloud_comm/src/network/at/toby201/tcp/at_toby201_tcp.c:712-728 | after the wait, the match elsewhere: all but the match, at most as many as asked for |
| `DisconnectDetector.ReceivesAfterNothing` | sdk/cloud_comm/src/network/at/toby201/tcp/at_toby201_tcp.c:729-734 | the match as it was: as many as asked for, and the match is forgotten |
| `DisconnectDetector.ReceivesAfterGrowth` | sdk/cloud_comm/src/network/at/toby201/tcp/at_toby201_tcp.c:735-740 | the match grown where it was: exactly the oldest min(size in 16 bits, unread) bytes, the front of the disconnect string among them |
| `DisconnectDetector.ReceivesAfterLoss` | sdk/cloud_comm/src/network/at/toby201/tcp/at_toby201_tcp.c:712-751 | the match gone, shorter, or longer than what is unread: everything unread |
| `DisconnectDetector.ReceivesAfterExtraction` | sdk/cloud_comm/src/network/at/toby201/tcp/at_toby201_tcp.c:774-784 | the whole string come in during the wait: the rescued bytes, and none from the ring |
| `DisconnectDetector.FreshLookup` | sdk/cloud_comm/src/network/at/toby201/tcp/at_toby201_tcp.c:96-167 | a first lookup is partial iff some front of the string but not the whole is unread, with length and ring index of its first occurrence |
| `DisconnectDetector.IdleDetects` | sdk/cloud_comm/src/network/at/toby201/tcp/at_toby201_tcp.c:272-291 | in direct mode the serial callback ends the connection and rescues the data iff the whole string is unread, and otherwise moves nothing |
| `DisconnectDetector.IdleElsewhere` | sdk/cloud_comm/src/network/at/toby201/tcp/at_toby201_tcp.c:272-291 | during a receive or in the full state it does nothing; outside direct mode only what modem lines take leaves the ring |
| `DisconnectDetector.ExtractionLeaves` | sdk/cloud_comm/src/network/at/toby201/tcp/at_toby201_tcp.c:243-270 | what an extraction leaves in the ring and at which index, before and after modem lines are read |
| `DisconnectDetector.AlwaysHoldsBackExactly` | sdk/cloud_comm/src/network/at/toby201/tcp/at_toby201_tcp.c:672-805 | a receive in a synchronised partial state holds back all that could open the disconnect string, whatever comes in, iff before the call there is anything beyond the match |
| `DisconnectDetector.HoldsBackExactly` | sdk/cloud_comm/src/network/at/toby201/tcp/at_toby201_tcp.c:672-805 | for one course of interrupts: in what way the bytes taken after the wait decide it |
| `DisconnectDetector.HoldsBackUndisturbed` | sdk/cloud_comm/src/network/at/toby201/tcp/at_toby201_tcp.c:672-805 | the same with nothing arriving during the wait: something beyond the match, or a moved match and nothing asked for |
| `DisconnectDetector.SecondReceiveReleases` | sdk/cloud_comm/src/network/at/toby201/tcp/at_toby201_tcp.c:672-805 | after a split disconnect string one receive takes exactly the data in front of it, and the next hands out all of its front, whatever size it was called with |
| `DisconnectDetector.RestIsMissed` | sdk/cloud_comm/src/network/at/toby201/tcp/at_toby201_tcp.c:96-167 | the rest of the string is then not recognised when it comes |
| `DisconnectDetector.NeverOverfillsExactly` | sdk/cloud_comm/src/network/at/toby201/tcp/at_toby201_tcp.c:774-794 | from any partial state, whether some course of interrupts makes a receive write more than the caller has room for, said of the state before the call |
| `DisconnectDetector.NeverOverfillsInSync` | sdk/cloud_comm/src/network/at/toby201/tcp/at_toby201_tcp.c:774-794 | in a synchronised partial state a receive never writes too much iff there is anything beyond the match, or the match is where it was recorded and fits the buffer, or the buffer holds a full ring |
| `DisconnectDetector.OverfillsByOne` | sdk/cloud_comm/src/network/at/toby201/tcp/at_toby201_tcp.c:774-794 | an ordinary input for which a receive of one byte writes two |
| `DisconnectDetector.KeepsExactly` | sdk/cloud_comm/src/network/at/toby201/tcp/at_toby201_tcp.c:672-686 | taking bytes off the front keeps every tail that could open the string iff it stops short of the longest one |
| `DisconnectDetector.CapKeepsPartial` | sdk/cloud_comm/src/network/at/toby201/tcp/at_toby201_tcp.c:672-686 | holding back as many bytes as the longest match keeps every suffix that is a prefix of the string, even if the match lies elsewhere |
| `SmsSegmentation.CalculateTotalMsgs` | sdk/cloud_comm/src/protocols/smsnas_protocol/smsnas_protocol.c:433-454 | the subtraction loop computes the closed form of the segment count |
| `SmsSegmentation.CountIsExact` | sdk/cloud_comm/src/protocols/smsnas_protocol/smsnas_protocol.c:433-454 | for 137 to 508 bytes the count is 1 + ceil((size - 126) / 134), at most 4, and one more than needed exactly on 261-264 and 395-398 |
| `SmsSegmentation.CountInFigures` | sdk/cloud_comm/src/protocols/smsnas_protocol/smsnas_protocol.c:433-454 | for every 16-bit size, those below the first limit and their wrap included: one segment more than the rest needs, by multiplication |
| `SmsSegmentation.Sender.BuildMsg` | sdk/cloud_comm/src/protocols/smsnas_protocol/smsnas_protocol.c:418-427 | byte 0 is 1, byte 1 the service, bytes 2 and 3 the size from its low byte up, the payload behind them, zeros after that |
| `SmsSegmentation.Sender.SendConcatenated` | sdk/cloud_comm/src/protocols/smsnas_protocol/smsnas_protocol.c:499-538 | the loop over the remaining size, segment size and running total emits exactly the specified segments |
| `SmsSegmentation.Sender.SendMsgToCloud` | sdk/cloud_comm/src/protocols/smsnas_protocol/smsnas_protocol.c:473-541 | which segments go out, the result code, and when the message reference advances; of the first segment sent, byte by byte: 1, service, size from its low byte up |
| `SmsSegmentation.SlicesJoin` | sdk/cloud_comm/src/protocols/smsnas_protocol/smsnas_protocol.c:499-538 | adjoining slices join up to the whole, whatever their number |
| `SmsSegmentation.SegmentsAddUp` | sdk/cloud_comm/src/protocols/smsnas_protocol/smsnas_protocol.c:473-541 | for every size the segments together are the header, the payload, and an explicit number of bytes from behind the payload |
| `SmsSegmentation.SegmentsCoverExactlyUnlessOvercounted` | sdk/cloud_comm/src/protocols/smsnas_protocol/smsnas_protocol.c:473-541 | they are exactly header and payload, each byte once, iff the size is outside the overcounted ranges |
| `SmsSegmentation.SegmentsAreNumbered` | sdk/cloud_comm/src/protocols/smsnas_protocol/smsnas_protocol.c:499-538 | 1 to n with one reference number, none longer than an SMS part |
| `SmsSegmentation.SegmentsAreOnWire` | sdk/cloud_comm/src/protocols/smsnas_protocol/smsnas_protocol.c:418-541 | the payloads of the segments, joined, are byte for byte version 1, service, low and high byte of the size, and the data |
| `SmsSegmentation.ShortMessageIsOnePart` | sdk/cloud_comm/src/protocols/smsnas_protocol/smsnas_protocol.c:473-541 | up to 136 bytes: one segment, numbered 0 of 1; more: two to four |
| `SmsSegmentation.RefsDiffer` | sdk/cloud_comm/src/protocols/smsnas_protocol/smsnas_protocol.c:499-541 | among any 256 concatenated messages in a row no two have the same reference |
| `SmsReassembly.Receiver.RcvFirst` | sdk/cloud_comm/src/protocols/smsnas_protocol/smsnas_protocol.c:206-300 | a segment with no message in progress: opens one, or the exact rejection |
| `SmsReassembly.Receiver.RcvNext` | sdk/cloud_comm/src/protocols/smsnas_protocol/smsnas_protocol.c:206-300 | a further segment: appended, completed and delivered, or the exact rejection |
| `SmsReassembly.Receiver.RcvSingle` | sdk/cloud_comm/src/protocols/smsnas_protocol/smsnas_protocol.c:206-300 | a single-part message: delivered, or the exact rejection |
| `SmsReassembly.Receiver.RcvCb` | sdk/cloud_comm/src/protocols/smsnas_protocol/smsnas_protocol.c:206-300 | the whole state and all callbacks after a segment, with callbacks that re-arm, acknowledge or reject; what that function promises is stated by the rows below |
| `SmsReassembly.CallbackIsExact` | sdk/cloud_comm/src/protocols/smsnas_protocol/smsnas_protocol.c:206-300 | which segments lead to a callback and to which, said of the fields of segment and receiver alone |
| `SmsReassembly.PathIsExact` | sdk/cloud_comm/src/protocols/smsnas_protocol/smsnas_protocol.c:206-300 | when the payload is appended or opens a message, when the message in progress ends, and when nothing changes |
| `SmsReassembly.AnswerIsExact` | sdk/cloud_comm/src/protocols/smsnas_protocol/smsnas_protocol.c:206-300 | the answer due: after a callback the last one the application gave, else the old one; without a callback an acknowledgement iff the payload was stored, and a rejection otherwise |
| `SmsReassembly.SilentSegmentIsAnsweredByStorage` | sdk/cloud_comm/src/protocols/smsnas_protocol/smsnas_protocol.c:206-300 | over every run: a segment without a callback is acknowledged iff its payload has become the end of the partial message, and rejected otherwise |
| `SmsReassembly.CallbackIsAnsweredByApplication` | sdk/cloud_comm/src/protocols/smsnas_protocol/smsnas_protocol.c:206-300 | over every run: after a callback the answer is the last one given in it, or the one due before |
| `SmsReassembly.AnswerIsFlushedOnce` | sdk/cloud_comm/src/protocols/smsnas_protocol/smsnas_protocol.c:345-391 | that answer is the one maintenance sends, though buffers are supplied in between; a second pass sends none |
| `SmsReassembly.ReactionsArm` | sdk/cloud_comm/src/protocols/smsnas_protocol/smsnas_protocol.c:206-318 | a delivered message frees the buffer before the callback, so the first fitting buffer supplied there is taken; a part too long frees it afterwards, so none is |
| `SmsReassembly.SupplyIsExact` | sdk/cloud_comm/src/protocols/smsnas_protocol/smsnas_protocol.c:302-318 | a buffer is taken iff none is in use and it has at most 512 bytes |
| `SmsReassembly.Receiver.SetRecvBuffer` | sdk/cloud_comm/src/protocols/smsnas_protocol/smsnas_protocol.c:302-318 | arming refuses buffers over 512 bytes and otherwise takes the new one |
| `SmsReassembly.Receiver.Maintenance` | sdk/cloud_comm/src/protocols/smsnas_protocol/smsnas_protocol.c:345-391 | an overdue message is discarded, a pending answer cleared |
| `SmsReassembly.OtherTrafficLeavesPathAlone` | sdk/cloud_comm/src/protocols/smsnas_protocol/smsnas_protocol.c:137-204 | while a message is in progress, foreign references, single-part messages and maintenance that is not overdue leave its bytes, length and sequence number unchanged |
| `SmsReassembly.PathIsAssembled` | sdk/cloud_comm/src/protocols/smsnas_protocol/smsnas_protocol.c:137-204 | in every reachable state the partial buffer is the concatenation of segments 1 to the current one of one reference |
| `SmsReassembly.DeliveredIsAssembled` | sdk/cloud_comm/src/protocols/smsnas_protocol/smsnas_protocol.c:206-300 | over every run: a delivered concatenated message is the in-order concatenation of segments 1 to n of one reference, none of them left out while a buffer was armed |
| `SmsReassembly.DeliveriesFit` | sdk/cloud_comm/src/protocols/smsnas_protocol/smsnas_protocol.c:125-135 | over every run: a message is delivered only into an armed buffer that holds it |
| `SmsCodec.SubmitSize` | sdk/cloud_comm/src/network/at/smscodec/smscodec.c:305-342 | 14 + 2 ceil(d/2) + 2 (len + 6 if concatenated) characters, hence at most 314 for 20 digits and 140 or 134 bytes |
| `SmsCodec.Codec.HexStr` | sdk/cloud_comm/src/network/at/smscodec/smscodec.c:63-73 | two upper-case digits and a terminator |
| `SmsCodec.Codec.HexNum` | sdk/cloud_comm/src/network/at/smscodec/smscodec.c:84-109 | one octet from two digits, in either case; fails exactly when one is not a digit |
| `SmsCodec.Codec.SwapDigits` | sdk/cloud_comm/src/network/at/smscodec/smscodec.c:122-154 | the loop writes the digits swapped in pairs, with F for the odd one |
| `SmsCodec.Codec.EncodeAddr` | sdk/cloud_comm/src/network/at/smscodec/smscodec.c:122-154 | writes the address field for a number with or without plus |
| `SmsCodec.Codec.EncodeUd` | sdk/cloud_comm/src/network/at/smscodec/smscodec.c:163-180 | writes length octet, header for a part of several, payload |
| `SmsCodec.Codec.Encode` | sdk/cloud_comm/src/network/at/smscodec/smscodec.c:305-342 | accepts iff there are parts and payload and the number lies within them; writes an SMS-SUBMIT that reads back octet for octet: first octet 0x41 iff there are several parts and else 0x01, reference, number, 0, 4, user data; returns its length; the reference advances modulo 256 |
| `SmsCodec.FirstOctetIsRight` | sdk/cloud_comm/src/network/at/smscodec/smscodec.c:305-342 | type bits 01; validity, status report and reply bits clear; bit 6 set iff there are several parts (3GPP TS 23.040, section 9.2.2.2) |
| `SmsCodec.SubmitIsStandard` | sdk/cloud_comm/src/network/at/smscodec/smscodec.c:305-342 | the text read from its first character: first octet, reference, length and type of the number, its digits in swapped pairs, PID 0, DCS 4, user data; nothing behind |
| `SmsCodec.SubmitFirstReadsBack` | sdk/cloud_comm/src/network/at/smscodec/smscodec.c:305-342 | first octet and reference are read back from characters 0 to 3 |
| `SmsCodec.SubmitAddrReadsBack` | sdk/cloud_comm/src/network/at/smscodec/smscodec.c:122-154 | the digits are read back by the decoder from character 8, behind length and type of the number |
| `SmsCodec.SubmitUserDataReadsBack` | sdk/cloud_comm/src/network/at/smscodec/smscodec.c:163-258 | the user data, with the header bit of octet 0, is decoded to the segment with normalised numbering |
| `SmsCodec.UserDataInOctets` | sdk/cloud_comm/src/network/at/smscodec/smscodec.c:163-180 | the user data octet by octet: length; for several parts 5, 0, 3, reference, total, number; payload (section 9.2.3.24.1) |
| `SmsCodec.SwappedAt` | sdk/cloud_comm/src/network/at/smscodec/smscodec.c:122-154 | every digit trades places with its neighbour, and an odd last one follows F |
| `SmsCodec.HexIsUsual` | sdk/cloud_comm/src/network/at/smscodec/smscodec.c:63-109 | the digits are 0-9 and A-F, read back in either case and from no other character |
| `SmsCodec.PlusIsLeftOut` | sdk/cloud_comm/src/network/at/smscodec/smscodec.c:122-154 | a leading plus is left out, and nothing else |
| `SmsCodec.Codec.DecodeAddr` | sdk/cloud_comm/src/network/at/smscodec/smscodec.c:186-209 | the address as the two-cell loop leaves it, with what a filler leaves untouched, how far the buffer is overwritten, and the one length for which the loop never ends |
| `SmsCodec.AddrLoopEnds` | sdk/cloud_comm/src/network/at/smscodec/smscodec.c:201-205 | the 8-bit index of the address loop gets to the announced length iff that is below 255 |
| `SmsCodec.Codec.DecodeUserData` | sdk/cloud_comm/src/network/at/smscodec/smscodec.c:215-258 | accepts exactly well-formed user data of the announced length, fills in the record, and overwrites no more of the buffer than the readable octets |
| `SmsCodec.Codec.DecodeHeader` | sdk/cloud_comm/src/network/at/smscodec/smscodec.c:260-303 | accepts exactly the supported fields in front of the user data, and where it stops reading |
| `SmsCodec.Codec.DecodePdu` | sdk/cloud_comm/src/network/at/smscodec/smscodec.c:260-303 | for any PDU: accepts exactly what the decoding function does and leaves its result in the record, never ends for one kind, and what both buffers hold afterwards, with the memory behind them, also when the PDU is rejected |
| `SmsCodec.HeaderAcceptedExactly` | sdk/cloud_comm/src/network/at/smscodec/smscodec.c:260-303 | the fields in front of the user data, at the places their lengths give, and the values accepted there |
| `SmsCodec.UserDataAcceptedExactly` | sdk/cloud_comm/src/network/at/smscodec/smscodec.c:215-258 | user data is accepted iff its length is what is left, the header if there must be one is 5, 0, 3, and all octets are readable |
| `SmsCodec.CellsAreSwapped` | sdk/cloud_comm/src/network/at/smscodec/smscodec.c:196-209 | each digit of the address is the other one of its pair; where F stands the cell keeps what it held |
| `SmsCodec.NeverEndsExactly` | sdk/cloud_comm/src/network/at/smscodec/smscodec.c:186-209 | decoding never ends iff it gets to an address whose announced length the index does not reach |
| `SmsCodec.AcceptedStaysInBuffersExactly` | sdk/cloud_comm/src/network/at/smscodec/smscodec.c:260-303 | among all accepted PDUs, decoding stays within the 22 and 140 cells of its buffers iff the address has at most 21 digits and the payload at most 140 bytes |
| `SmsCodec.StaysInBuffersExactly` | sdk/cloud_comm/src/network/at/smscodec/smscodec.c:186-303 | among all PDUs, rejected ones included: iff no more is announced, or the decoder stops before it writes that far |
| `SmsCodec.HexReadsBack` | sdk/cloud_comm/src/network/at/smscodec/smscodec.c:63-109 | an octet written in hexadecimal is read back |
| `SmsCodec.OctetsReadBack` | sdk/cloud_comm/src/network/at/smscodec/smscodec.c:163-258 | so is any payload |
| `SmsCodec.AddrReadsBack` | sdk/cloud_comm/src/network/at/smscodec/smscodec.c:122-209 | so are the digits of any address, odd or even, without the plus |
| `SmsCodec.UserDataReadsBack` | sdk/cloud_comm/src/network/at/smscodec/smscodec.c:163-258 | so is the user data; numbering survives in a part of several and becomes 0, 1, 0 otherwise |
| `SmsCodec.DeliverRoundTrip` | sdk/cloud_comm/src/network/at/smscodec/smscodec.c:260-303 | an SMS-DELIVER around the encoder’s address and user data decodes to the bare digits, the payload and the numbering (3GPP TS 23.040, sections 9.2.2.1 and 9.2.3.24.1) |
| `SmsEndToEnd.FeedMessage` | sdk/cloud_comm/src/protocols/smsnas_protocol/smsnas_protocol.c:206-300 | everything the receiver’s callback is told when the segments of one message of any size arrive in order |
| `SmsEndToEnd.DeliversExactlyUnlessOvercounted` | sdk/cloud_comm/src/protocols/smsnas_protocol/smsnas_protocol.c:206-541 | the callback is called once, with 1, service, low byte, high byte of the size and exactly the payload, iff the size is outside the overcounted ranges |
| `SmsEndToEnd.NormalisedIsReceivedAlike` | sdk/cloud_comm/src/protocols/smsnas_protocol/smsnas_protocol.c:206-300 | the receiver does not notice the numbering that PDUs of single-part messages drop |
| `SmsEndToEnd.DeliversThroughPdus` | sdk/cloud_comm/src/network/at/smscodec/smscodec.c:260-342 | the same over the whole path: segmented, put into PDUs, decoded, reassembled |
| `OttFraming.CommandReadsBack` | sdk/cloud_comm/src/protocols/ott_protocol/ott_def.h:34-58 | flags and type are read back from the command byte they were put into |
| `OttFraming.CompleteExactlyAtEnd` | sdk/cloud_comm/src/protocols/ott_protocol/ott_protocol.c:499-517 | in a stream that begins with a message the buffer is judged complete iff exactly that message has been read, and is then valid |
| `OttFraming.EmptyUpdateNeverCompletes` | sdk/cloud_comm/src/protocols/ott_protocol/ott_protocol.c:511-514 | an update without data is never complete |
| `OttFraming.FlagsInFigures` | sdk/cloud_comm/src/protocols/ott_protocol/ott_protocol.c:299-319 | which upper halves of the command byte mean which flags, and which eight of them are valid |
| `OttFraming.MessagesInFigures` | sdk/cloud_comm/src/protocols/ott_protocol/ott_protocol.c:472-517 | the messages, by their bytes: one byte; a command and four; an update of 1 to 509 bytes with its size from the low byte up |
| `OttFraming.ValidityInFigures` | sdk/cloud_comm/src/protocols/ott_protocol/ott_protocol.c:472-497 | a buffer passes the validity test iff its upper half byte is one of eight and its type one of four, an update with at most 509 bytes |
| `OttFraming.ValidInFigures` | sdk/cloud_comm/src/protocols/ott_protocol/ott_protocol.c:472-560 | a complete message is refused iff its flags contradict each other |
| `OttFraming.CompleteInFigures` | sdk/cloud_comm/src/protocols/ott_protocol/ott_protocol.c:499-517 | by type, the lengths at which what has come is complete |
| `OttFraming.PartialReads` | sdk/cloud_comm/src/protocols/ott_protocol/ott_protocol.c:519-560 | after any number of pieces short of the last: no message so far, and the buffer holds what has come |
| `OttFraming.FramingIsIndependentOfReads` | sdk/cloud_comm/src/protocols/ott_protocol/ott_protocol.c:519-560 | for every valid message and every split into non-empty reads: no message on all but the last read, then the exact message and length, and the count is back to zero |
| `OttSession.EveryRunKeeps` | sdk/cloud_comm/src/protocols/ott_protocol/ott_protocol.c:135-1004 | after any calls, whatever the network does and however callbacks re-enter: an open channel implies conn_done, a socket implies conn_done unless a failed attempt left it, auth_done and an announced message imply conn_done, every command byte sent has valid flags, and an acknowledgement asked for and still owed is pending |
| `OttSession.StepKeeps` | sdk/cloud_comm/src/protocols/ott_protocol/ott_protocol.c:827-1004 | each call into the protocol, configuration requests included, keeps that invariant from any state that satisfies it |
| `OttSession.OwedIsNotForgotten` | sdk/cloud_comm/src/protocols/ott_protocol/ott_protocol.c:812-1004 | over every run: while an acknowledgement is owed, pend_ack is set |
| `OttSession.OwedMeans` | sdk/cloud_comm/src/protocols/ott_protocol/ott_protocol.c:812-1004 | an acknowledgement is owed from the application’s call on; a byte sent leaves it owed iff it does not carry the acknowledge flag; a reset ends it |
| `OttSession.SendSays` | sdk/cloud_comm/src/protocols/ott_protocol/ott_protocol.c:812-877 | in an authenticated session a send appends first a status byte (or the configuration request) with pending set, reject and quit clear, and acknowledge iff pend_ack was set |
| `OttSession.ConnectionSays` | sdk/cloud_comm/src/protocols/ott_protocol/ott_protocol.c:677-757 | the first byte over a new channel is 0x01 when polling and 0x41 otherwise |
| `OttSession.SendConnectsFirst` | sdk/cloud_comm/src/protocols/ott_protocol/ott_protocol.c:812-857 | a send outside a session says 0x41 first |
| `OttSession.PollSays` | sdk/cloud_comm/src/protocols/ott_protocol/ott_protocol.c:979-1004 | a poll says 0x01 first |
| `OttSession.RoundSays` | sdk/cloud_comm/src/protocols/ott_protocol/ott_protocol.c:985-1002 | a round of the drain loop says 0x20 if an acknowledgement is owed and 0x00 otherwise |
| `OttSession.LastRoundSays` | sdk/cloud_comm/src/protocols/ott_protocol/ott_protocol.c:985-1002 | with nothing announced and an acknowledgement owed the loop says 0xA0, closes and resets |
| `OttSession.LeavingIsExact` | sdk/cloud_comm/src/protocols/ott_protocol/ott_protocol.c:347-372 | leaving says 0x80, or 0x90 with a rejection, and clears the whole session, iff there is an authenticated one |
| `OttSession.CallsAreExact` | sdk/cloud_comm/src/protocols/ott_protocol/ott_protocol.c:886-895 | what the application’s acknowledge, reject and quit calls come to, on the fields |
| `OttSession.FailedWaitRejects` | sdk/cloud_comm/src/protocols/ott_protocol/ott_protocol.c:716-876 | after a failed wait 0x90 is sent iff there is still an authenticated session |
| `OttSession.SilenceMeans` | sdk/cloud_comm/src/protocols/ott_protocol/ott_protocol.c:572-605 | a wait without an answer fails; the sender is told of a time-out iff it is listening |
| `OttSession.EventsOfProcess` | sdk/cloud_comm/src/protocols/ott_protocol/ott_protocol.c:414-470 | all that a message makes the application hear, in order, and whether it counts as an answer |
| `OttSession.AnswerDecides` | sdk/cloud_comm/src/protocols/ott_protocol/ott_protocol.c:572-605 | after an answer of one byte a send succeeds iff the byte acknowledges or does not reject; after silence it never does |
| `OttSession.SendResults` | sdk/cloud_comm/src/protocols/ott_protocol/ott_protocol.c:812-877 | the refusals of a send and their result codes |
| `OttSession.InvalidByteIsRefused` | sdk/cloud_comm/src/protocols/ott_protocol/ott_protocol.c:519-560 | a byte with contradictory flags is answered with 0x90, the channel closed, the application told nothing |
| `OttSession.StreamEndIsProcessed` | sdk/cloud_comm/src/protocols/ott_protocol/ott_protocol.c:519-605 | end of stream has the old contents of the buffer processed with length 0 |
| `OttSession.UnwrittenAuthentication` | sdk/cloud_comm/src/protocols/ott_protocol/ott_protocol.c:716-757 | an authentication that cannot be written fails the attempt and leaves the channel open unless the session was authenticated |
| `OttSession.EstablishedMeans` | sdk/cloud_comm/src/protocols/ott_protocol/ott_protocol.c:716-757 | a session is said to be up only when not rejected, and when polling only with a connection |
| `OttSession.OneAttemptIsEnough` | sdk/cloud_comm/src/protocols/ott_protocol/ott_protocol.c:716-757 | only a rejection leads to another attempt; what one attempt otherwise gives |
| `OttSession.RejectionReconnects` | sdk/cloud_comm/src/protocols/ott_protocol/ott_protocol.c:716-757 | a run in which the first answer is rejected: 0x41, 0x90, 0x41, and the second session is up |
| `OttSession.PerformMeans` | sdk/cloud_comm/src/protocols/ott_protocol/ott_protocol.c:886-895 | what any sequence of acknowledgements and rejections inside one callback comes to |
| `OttSession.ProcessSettles` | sdk/cloud_comm/src/protocols/ott_protocol/ott_protocol.c:414-470 | after an accepted message more is expected only while the session is up; after a rejection quitting clears both flags iff the callbacks did not acknowledge too late |
| `OttSession.ReceiveSettles` | sdk/cloud_comm/src/protocols/ott_protocol/ott_protocol.c:572-605 | the same for a whole wait, through any pauses, errors, close notices, time-outs and messages |
| `OttSession.DrainEndsClear` | sdk/cloud_comm/src/protocols/ott_protocol/ott_protocol.c:979-1004 | the drain loop, started in a session that is up, leaves pend_bit and pend_ack false on every way out |
| `OttSession.LateAckStays` | sdk/cloud_comm/src/protocols/ott_protocol/ott_protocol.c:364-470 | a network that leaves pend_ack set, for every reaction that acknowledges too late |
| `OttSession.MaintenanceEndsClearExactlyWhenQuiet` | sdk/cloud_comm/src/protocols/ott_protocol/ott_protocol.c:979-1004 | for every set of possible reactions: maintenance of an authenticated session, when it ends, leaves both flags clear after every history and against every network iff no reaction in the set acknowledges in a quit callback or after rejecting in a send callback |
| `OttSession.MaintenanceIsExact` | sdk/cloud_comm/src/protocols/ott_protocol/ott_protocol.c:979-1004 | from any state and in any course of events: exactly when maintenance that ends leaves both flags clear, polling included |
| `OttSession.DrainNeverEnds` | sdk/cloud_comm/src/protocols/ott_protocol/ott_protocol.c:985-1002 | where the loop is said not to end, the receive buffer is full, its old contents announce more, and every further round succeeds |
| `OttSession.OverlongUpdateNeverEnds` | sdk/cloud_comm/src/protocols/ott_protocol/ott_protocol.c:519-605 | a network after whose overlong update maintenance goes round for ever |
| `OttSession.SocketMeansConnectionUnlessLeft` | sdk/cloud_comm/src/protocols/ott_protocol/ott_protocol.c:607-676 | in every run a socket open without conn_done was left by an attempt that failed at the server name |
| `OttSession.SocketIsLeftBehind` | sdk/cloud_comm/src/protocols/ott_protocol/ott_protocol.c:638-640 | a run that leaves one |
| `OttSession.DrainEndsClearUnlessStranded` | sdk/cloud_comm/src/protocols/ott_protocol/ott_protocol.c:985-1002 | the drain loop, if it ends, leaves both flags clear unless it runs unauthenticated and a wait fails with something left |
| `OttSession.MaintenanceAlwaysEndsClear` | sdk/cloud_comm/src/protocols/ott_protocol/ott_protocol.c:979-1004 | for a state with no message half received: maintenance that ends leaves both flags clear against every network iff the session is authenticated, or nothing was owed and no poll is due |
| `OttSession.AnnouncingStrands` | sdk/cloud_comm/src/protocols/ott_protocol/ott_protocol.c:716-757 | a network whose answer to a poll leaves pend_bit set |
| `OttSession.ReceiveTakesWholeMessage` | sdk/cloud_comm/src/protocols/ott_protocol/ott_protocol.c:519-605 | one wait takes in exactly one message however it is cut up and paused, processes it, and leaves what follows in the stream |
| `OttSession.BodyIsHandedOverOnce` | sdk/cloud_comm/src/protocols/ott_protocol/ott_protocol.c:374-470 | of an acknowledging message with a body the application is told once, before anything else: of an update in full, of a command the front of a service message |
| `OttSession.ToldWholeExactlyUnlessCommand` | sdk/cloud_comm/src/protocols/ott_protocol/ott_protocol.c:374-405 | the length the application is told covers the message it is meant to see iff that is not a command |
| `OttSession.IntervalIsCut` | sdk/cloud_comm/src/protocols/ott_protocol/ott_protocol.c:393-399 | what it is told of a command ends after the first byte of the interval |
| `OttSession.UpdateIsDeliveredAsIs` | sdk/cloud_comm/src/protocols/ott_protocol/ott_protocol.c:440-455 | an update is shown to the application byte for byte |
| `OttFraming.CommandKeepsInterval` | sdk/cloud_comm/src/protocols/ott_protocol/ott_protocol.c:374-405 | in a buffer with room for it the service message made from a command carries version 1, kind 2 for polling and 1 for sleep, and the interval it came with, and touches nothing behind |
| `OttDevice.Device.Quit` | sdk/cloud_comm/src/protocols/ott_protocol/ott_protocol.c:364-372 | does nothing without a connection and authentication; otherwise sends, closes and resets |
| `OttDevice.Device.Callback` | sdk/cloud_comm/src/protocols/ott_protocol/ott_protocol.c:886-895 | the application is told, and its re-entrant calls take effect in order |
| `OttDevice.Device.ProcessRecvdMsg` | sdk/cloud_comm/src/protocols/ott_protocol/ott_protocol.c:414-470 | the session after a message, with every callback on the way, is that of the message function |
| `OttDevice.Device.AcceptBytes` | sdk/cloud_comm/src/protocols/ott_protocol/ott_protocol.c:499-547 | bytes stored in place behind earlier ones, judged, and the count reset |
| `OttDevice.Device.RetrieveMsg` | sdk/cloud_comm/src/protocols/ott_protocol/ott_protocol.c:519-560 | every outcome of the read, with what it does to buffer, channel and session |
| `OttDevice.Device.RecvRespWithinTimeout` | sdk/cloud_comm/src/protocols/ott_protocol/ott_protocol.c:572-605 | the waiting loop computes the receiving function |
| `OttDevice.Device.EstablishSession` | sdk/cloud_comm/src/protocols/ott_protocol/ott_protocol.c:716-757 | the retry loop computes the establishing function |
| `OttDevice.Device.SendMsgToCloud` | sdk/cloud_comm/src/protocols/ott_protocol/ott_protocol.c:812-877 | every way out of a send for every service, with the session it leaves, which satisfies the invariant; in an authenticated session the first byte appended is 0x62 if an acknowledgement is owed and else 0x42, or 0x64 and 0x44 for a configuration request |
| `OttDevice.Device.ResendInitConfig` | sdk/cloud_comm/src/protocols/ott_protocol/ott_protocol.c:898-954 | every way out of a configuration request; the first byte appended in an authenticated session is 0x64 if an acknowledgement is owed and else 0x44 |
| `OttDevice.Device.FakeReceivingServiceMsg` | sdk/cloud_comm/src/protocols/ott_protocol/ott_protocol.c:374-405 | the command in the buffer is overwritten with the service message |
| `OttDevice.Device.DrainLoop` | sdk/cloud_comm/src/protocols/ott_protocol/ott_protocol.c:985-1002 | the drain loop computes the draining function |
| `OttDevice.Device.Maintenance` | sdk/cloud_comm/src/protocols/ott_protocol/ott_protocol.c:979-1004 | the session it leaves satisfies the invariant, and has both flags clear if it ends, was authenticated, and the callbacks do not acknowledge too late; with only an acknowledgement owed it appends exactly 0xA0 and ends the session |
| `OemIndex.HashFunction` | platform/drivers/oem/raspberry_pi3/oem.c:58-76 | the accumulating loop computes the hash, or INVALID for no name |
| `OemIndex.HashStaysSmall` | platform/drivers/oem/raspberry_pi3/oem.c:58-76 | after every character the top four bits of the accumulator are clear |
| `OemIndex.MixMeans` | platform/drivers/oem/raspberry_pi3/oem.c:58-76 | one character: sixteen times the value plus the character; from 2 to the 28 up, the top four bits are taken off and mixed in 24 places lower |
| `OemIndex.HashMixesInOrder` | platform/drivers/oem/raspberry_pi3/oem.c:58-76 | characters are mixed in from the first to the last, from 0 |
| `OemIndex.BucketIsRemainder` | platform/drivers/oem/raspberry_pi3/oem.c:58-76 | the bucket is the remainder of the value by the number of buckets |
| `OemIndex.ChainTable.InsertToHashTable` | platform/drivers/oem/raspberry_pi3/oem.c:78-121 | nothing without a group or a key; otherwise fills the first empty slot of the row and no other, or drops the item iff the row is full; rows stay filled from the front |
| `OemIndex.ChainTable.FindSlot` | platform/drivers/oem/raspberry_pi3/oem.c:280-288 | the first slot of the row holding that name, or INVALID |
| `OemIndex.ChainTable.FileChars` | platform/drivers/oem/raspberry_pi3/oem.c:135-147 | the inner loop files one profile’s characteristics behind the earlier ones |
| `OemIndex.Index.CreateHashTableForProfiles` | platform/drivers/oem/raspberry_pi3/oem.c:123-133 | the finished table holds what filing all profiles in order gives |
| `OemIndex.Index.CreateHashTableForChar` | platform/drivers/oem/raspberry_pi3/oem.c:135-147 | likewise for all characteristics of all profiles |
| `OemIndex.ChainLength` | platform/drivers/oem/raspberry_pi3/oem.c:78-121 | a chain is as long as the number of names that hash to it, up to its capacity |
| `OemIndex.LookupIsExact` | platform/drivers/oem/raspberry_pi3/oem.c:274-296 | for any tables and any distribution of the hash: a lookup gives the first entry of that name if fewer than a full chain came before it in its bucket, and nothing otherwise |
| `OemIndex.DistinctIsFirst` | platform/drivers/oem/raspberry_pi3/oem.c:274-296 | with distinct names that entry is the only one |
| `OemIndex.FewEntriesAreAllFound` | platform/drivers/oem/raspberry_pi3/oem.c:78-121 | with no more entries than a chain holds no insertion is dropped |
| `OemIndex.CharItemsPointBack` | platform/drivers/oem/raspberry_pi3/oem.c:135-147 | every indexed characteristic points back into the tables at its own name |
| `OemIndex.CharItemsCoverTables` | platform/drivers/oem/raspberry_pi3/oem.c:135-147 | every characteristic is filed, with its profile and position, in table order, and nothing else is |
| `OemIndex.ProfileItemsPointBack` | platform/drivers/oem/raspberry_pi3/oem.c:123-133 | profiles are filed in table order under their names |
| `OemIndex.Index.GetProfileIdx` | platform/drivers/oem/raspberry_pi3/oem.c:274-296 | the first profile of that name that found room, INVALID for any other name; with distinct names and no insertion dropped, index k iff the name is that of profile k |
| `OemIndex.NameGivesItsItem` | platform/drivers/oem/raspberry_pi3/oem.c:274-296 | with distinct names and no insertion dropped a name looks up to its own entry and to no other |
| `OemIndex.Index.FindCharacteristic` | platform/drivers/oem/raspberry_pi3/oem.c:356-379 | profile and position of the first characteristic of that name that found room, and nothing for any other name |

## Left out

- UART overflow flush during a read: `uart_util_flush` is not protected against the interrupt, so the interleavings
  are those between flushes; idle timer and callback registration are not modelled. During the receive's wait overflows
  are modelled.
- The pool of ring records (`rbuf_init`) and its exhaustion.
- The AT command layer and the parsing of modem lines: how many bytes a pass over them takes out of the ring, and
  whether one of them reports the connection closed, are inputs of the serial callback. Modem configuration.
- DirectLinkLayer.DirectLink.TcpRecv: interrupts come during its wait and between calls, not between its other steps.
- SmsSegmentation.Sender.WriteToModem: always succeeds, as it does in the code; delays and retries are not modelled.
- SmsReassembly: one receive path, as configured (`SMSNAS_MAX_RCV_PATH` is 1). The number of parts an intermediate
  segment announces is not compared with the first one's, as in the code.
- SmsReassembly.Receiver.Maintenance: time enters only as whether a partial message is overdue; deadlines and polling
  intervals are not modelled.
- SmsReassembly.Receiver.RcvCb: reading behind a segment shorter than two bytes sees the bytes the model calls
  residue; a callback re-arms the buffer at the point where the code calls it.
- SmsCodec.Codec.DecodePdu: reading past the end of a PDU yields its terminator.
- NULL arguments, except where the code's answer to them is modelled.
- OttSession: TLS record handling, certificates, the body of the authentication message and the payload bytes of
  status messages; partial writes; which of error and time-out a failed write reports; the host, port and buffer
  settings, taken as set.
- OttDevice.Device.FakeReceivingServiceMsg: in a receive buffer of fewer than nine bytes the service message is cut off
  at the end, where the code writes on behind it.
- OttFraming.FramingIsIndependentOfReads: starts from a count of zero; the code does not clear the count on a new
  connection.
- OttDevice.Device.RecvRespWithinTimeout: time is the list of read results; when it is used up the time-out is reached.
- OemIndex: characters are unsigned; the JSON built around the lookups.
- mbedTLS, MQTT, HAL and drivers, GPS and sensor arithmetic, applications: foreign code, plumbing, or floating point.
