# KCP: a model of the ARQ engine and what it keeps

KCP is a reliable transport on top of datagrams: `ikcp_send` fragments bytes into a queue,
`ikcp_flush` numbers, transmits and retransmits segments and packs them into datagrams,
`ikcp_input` decodes datagrams and handles acknowledgements, `ikcp_recv` delivers in order. This
project models `ikcp.c` and `ikcp.h` and proves properties of every operation and of every run.

## How it is organised

Two descriptions of the engine, and a proof that they agree:

* **Values.** `Serial` (32-bit serial numbers, as in section 3.2 of RFC 1982), `Segment`, `Codec`
  (header and datagram format), `Rtt` (the filter, of the shape of section 2 of RFC 6298),
  `Congestion`, `SendQueue` (fragmentation), `SendBuffer` (acknowledgements), `Receiver` (reordering,
  delivery, peeking), `State` (the control block as a value), `Packing` and `Flush` (the phases of a
  flush), `Timer`, `Operations` (the operations as functions, and the invariant `Inv` that every call
  keeps with any arguments). Two properties are kept with a condition on the settings: `Tidy` (queue
  and receive buffer within the window and drained) needs a receive window that neither shrinks nor
  grows while the next segment waits for room, `Paced` (`cwnd` is worth its byte count) needs a resend
  setting whose window cannot overflow. For growth and for the setting the conditions are exact
  (`Receiver.GrowthKeepsTidyIff`, `Congestion.ResendFitsIff`).
* **Objects.** `Kcp.Kcp` is the control block as an object, with the fields, loops, scratch buffer and
  acknowledgement array of the code; each method is proved to take the abstract state exactly where
  the function of the same operation takes it, and what it hands to the output callback is proved to
  be the encodings of the datagrams that the function lists. `AckList.AckList` is the growable
  acknowledgement array. `Rings` has the intrusive circular lists, node by node, and `ControlRings`
  the four of them that a control block owns; `RingLoops` has the loops that unlink, move and insert
  while they walk these rings.

On top of these: `FlushFacts` and `Trace` (what a flush encodes and leaves behind), `FlushOutcome` and
`InputOutcome` (what a whole flush, update and input do, in the fields of the endpoint before and after,
without the functions that compute it), `Confluence` (arrival order does not matter), `Tracking` (the
unbounded index behind each 32-bit number), `Ledger` (one sender over any calls and any bytes that
arrive, whatever its peer does: what each number stands for, what was encoded and how often) and
`Network` (two endpoints and a network that loses, duplicates and reorders). The end of the chain is
`Network.EndToEnd`: in every run, in either mode and in both directions, what the application has
received, followed by what waits in its receive queue, is a prefix of what the peer's application
has sent, and every numbered segment is still with the sender or has been accepted by the receiver.
Windows may shrink and grow in such a run, with segments waiting or not, and the resend setting is
arbitrary. `Retries` bounds counts and timeouts by the number of flushes in a run.

## What the code does that one might not expect

* `ikcp_recv` ignores message boundaries: it takes whole segments while they fit (ikcp.c:384-415).
  A negative length peeks.
* `canoutput` may refuse at every step of a flush. A refusal before the data phase abandons what is
  packed in the scratch buffer (ikcp.c:951-959, 997-1000, 1014-1017); one in the data phase still
  outputs it, restores the segment's `xmit`, and keeps its new `rto` and `resendts`
  (ikcp.c:1107-1111).
* In stream mode a send may extend the tail of the queue and then return -2 (ikcp.c:483-522).
* With `fastresend` 0, the fast-resend reset makes the window `ssthresh - 1` by wrap-around
  (ikcp.c:1059, 1142), and an early retransmission can trigger it (ikcp.c:1091-1097).
* Growing the receive window while the receive queue is full and the next segment waits in the
  receive buffer breaks the rule that a peek changes nothing; `Receiver.GrowthKeepsTidyIff` says
  exactly when growth is harmless, and `Receiver.ArrivalWaits` reaches the state in which it is not. A
  caller can check the queue with `ikcp_check_rcvque_full`.
* A fast-resend setting that is very large makes the byte count of the reset window overflow 32 bits
  (ikcp.c:1137-1144): `Congestion.ResendFitsIff` says exactly for which settings that can happen.
* The clamp of `cwnd` to the remote window in input (ikcp.c:894-897) is never taken, in any state
  (`Congestion.ClampIsIdle`).
* The round-trip filter computes in 32 bits. `Rtt.FilterIsIdealIff` says exactly which updates differ
  from the filter over the integers, and `Rtt.FollowsIdealIff` which runs do. An update after the first
  wraps in the smoothing with `7 * srtt + rtt` or `3 * rttval` at 2^31 or more; any update, also the
  first, can wrap in the sum of the timeout, at 2^32, and is then wrong unless the rest is 4000 or more.
  Samples below 2^28 ms never wrap (`Rtt.RunIsIdeal`). One sample of 1431655766 ms gives the minimal
  timeout instead of the largest (`Rtt.TimeoutWraps`); two of 2^28 ms wrap the smoothing
  (`Rtt.LimitIsReached`).
* A payload of 2^31 bytes or more can make the sum of the lengths in a receive wrap, so that more is
  taken than there is room for; `Receiver.FitIsLongestIff` says exactly when.
* Without acknowledgements a segment's timeout grows by up to 4000 ms with each transmission; if it
  always grows by that much, transmission 536871 leaves the segment due again at once
  (`Retries.FlushLimitIsReached`).

## Model

| member | source | states |
|---|---|---|
| Serial.DiffIsExact | ikcp.c:136-139 | the signed 32-bit difference of two numbers is the difference of their unbounded indices if and only if the indices are less than half the number space apart |
| Codec.ByteOrderVariantsAgree32 | ikcp.c:94-121 | the shifting encoder stores exactly the four bytes from which a little-endian load reads the number, and both decoders return it |
| Codec.ByteOrderVariantsAgree16 | ikcp.c:68-92 | the same for 16 bits |
| Codec.HeaderRoundTrip | ikcp.c:781-790 | decoding the header of an encoded segment, followed by anything, returns the header |
| Codec.ParseEncoded | ikcp.c:773-875 | for any segments of the conversation and any short trailing bytes, the decoding loop recovers exactly the segments before the first unknown command and stops there with the right code |
| Codec.DatagramRoundTrip | ikcp.c:773-875 | the whole list comes back with every byte consumed if and only if every command is accepted |
| Codec.GetHeadAgrees | ikcp.c:1320-1337 | reading only the header of a packed datagram returns the header of its first segment |
| Codec.HeaderLayout | ikcp.c:781-790 | both directions of the codec go by one layout: conversation, command, fragment, window, time, number, `una`, length at bytes 0, 4, 5, 6, 8, 12, 16, 20, least significant byte first |
| Codec.ParseExplained | ikcp.c:773-875 | any bytes are the encodings of segments of the conversation with known commands, which the loop yields in order, and then bytes at which it stops: with 0 if they are too short, -1 for another conversation, -2 for too long a payload, -3 for an unknown command |
| Codec.PutHeader | ikcp.c:1354-1365 | writes the 24 bytes of the header behind what the buffer holds, cutting command, fragment and window to their widths |
| Codec.PutData | ikcp.c:1119-1122 | appends the payload behind it and leaves what was in front |
| AckList.AckList.constructor | ikcp.c:282-284 | a new list is empty |
| AckList.AckList.NewBlock | ikcp.c:654 | the least doubling of 8 that holds the wanted number of pairs |
| AckList.AckList.Push | ikcp.c:646-680 | appends one pair to the list, growing and copying if the array is full |
| AckList.AckList.Get | ikcp.c:682-686 | reads the pair at a position |
| AckList.AckList.Move | ikcp.c:688-691 | moves pairs to the front, source and destination overlapping or not |
| AckList.AckList.Abandon | ikcp.c:951-959 | on refusal exactly the unsent pairs remain, in order |
| AckList.BlockIsPowerOfTwo | ikcp.c:654 | every capacity is a power of two of at least 8 |
| Rings.Init | ikcp.h:151-152 | a node linked to itself is an empty ring |
| Rings.IsEmpty | ikcp.h:183 | the test holds exactly of the empty ring |
| Rings.Add | ikcp.h:165-167 | four assignments insert a node behind any position of a ring, and nowhere else |
| Rings.AddTail | ikcp.h:169-171 | four assignments append a node |
| Rings.Del | ikcp.h:175-178 | unlinks exactly one node, wherever it is |
| Rings.DelInit | ikcp.h:180-181 | unlinks it and makes it a ring of its own |
| Rings.ControlRings.Append | ikcp.c:527-542 | a new segment is last on one ring; the four rings stay well formed and disjoint, counters are lengths, every segment is on exactly one ring or freed once |
| Rings.ControlRings.Move | ikcp.c:1039-1044 | the first segment of one ring becomes the last of another, with the same invariant |
| Rings.ControlRings.Insert | ikcp.c:719-722 | a new segment goes behind a given position, with the same invariant |
| Rings.ControlRings.Free | ikcp.c:595-599 | unlinks and frees one segment, which was on that ring, with the same invariant |
| Rings.ControlRings.Discard | ikcp.c:699-726 | a new segment that is freed without ever being linked, as for an arrival outside the window or a duplicate, is accounted for as freed, and rings and counters are untouched |
| Rings.ControlRings.ReplaceTail | ikcp.c:491-510 | stream mode's replacement of the tail leaves the ring's length and counter as they were |
| Rings.ControlRings.FreeAll | ikcp.c:315-319 | empties one ring |
| Rings.ControlRings.Release | ikcp.c:310-334 | afterwards every segment ever allocated has been freed |
| RingLoops.ParseUna | ikcp.c:607-621 | the walk that saves the next link and frees the current one leaves on the ring what cumulative acknowledgement leaves in the buffer, and the other rings alone |
| RingLoops.ParseAck | ikcp.c:585-605 | the walk to a number frees the segment that selective acknowledgement removes |
| RingLoops.TakeSegments | ikcp.c:384-415 | the walk returns the bytes of the segments that a receive takes and frees exactly these, or none if it peeks |
| RingLoops.StoreSegment | ikcp.c:707-726 | the walk from the tail links a new segment where the sorted buffer has it, or frees it if its number is there |
| RingLoops.DrainBuffer | ikcp.c:730-741 | the loop relinks from the receive buffer to the queue what draining moves |
| Rtt.TimeoutWithinClamps | ikcp.c:570-571 | for every sample and however the arithmetic wraps, the timeout is between the minimum and 4000 |
| Rtt.FilterIsIdeal | ikcp.c:556-572 | for a sample below 2^28 the filter is the filter over the integers and stays between 0 and the largest sample |
| Rtt.SmoothIsIdealIff | ikcp.c:556-568 | for all values that are not negative: the smoothed values are those over the integers if and only if it is the first update, or `7 * srtt + rtt` and `3 * rttval` are both below 2^31 |
| Rtt.FilterIsIdealIff | ikcp.c:556-572 | the same for the whole filter, timeout included: it is the filter over the integers if and only if that condition holds and the sum of the timeout is below 2^32, or at least 2^32 + 4000 |
| Rtt.FollowsIdealIff | ikcp.c:556-572 | from a new control block, for any samples that are not negative: the filter has the integers' values after every sample if and only if every update over the integers meets that condition |
| Rtt.TimeoutWraps | ikcp.c:570-571 | a witness: a first sample of 1431655766 is smoothed rightly, and the timeout wraps to its minimum where the integers give 4000 |
| Rtt.RunIsIdeal | ikcp.c:556-572 | for any sequence of samples below 2^28 from a new control block the filter is the filter over the integers, and stays between 0 and the largest sample |
| Rtt.LimitIsReached | ikcp.c:565-566 | a witness: from a new control block two samples of 2^28 overflow, and the smoothed time leaves the integers' path |
| Congestion.TracksIsQuotient | ikcp.c:885-892 | the invariant says that `cwnd` is `incr / mss` |
| Congestion.AdvanceKeepsSound | ikcp.c:881-899 | an advance keeps it, and adds what unbounded arithmetic adds without overflow |
| Congestion.ClampIsIdle | ikcp.c:881-899 | in every state, with or without the invariant, an advance never takes the clamp to the remote window |
| Congestion.FastResendTracksIff | ikcp.c:1137-1144 | for every setting, the fast-resend reset keeps the quotient if and only if `max(inflight / 2, 2) + resend`, taken in 32 bits, times `mss` is below 2^32; with the setting off the window becomes `ssthresh - 1` |
| Congestion.ResendFitsIff | ikcp.c:1137-1144 | a caller's test of a setting: `(32767 + resend) * mss < 2^32` holds if and only if every reset, with up to 65535 segments in flight, keeps the quotient |
| Congestion.LargestSettingFails | ikcp.c:1137-1144 | a witness: the largest setting, four segments in flight and segments of 1376 bytes break the quotient |
| Congestion.FlushSoundIff | ikcp.c:1136-1157 | the end of a flush keeps the invariant if and only if there is no fast-resend reset, or a loss overrides it, or the byte count of its window fits 32 bits; at least one segment of window is left in every case |
| SendQueue.CutIsFragmentation | ikcp.c:526-547 | fragments carry exactly the bytes in order, all but the last are full, counters run down to 0 or are all 0 in stream mode |
| SendQueue.SendTakes | ikcp.c:475-550 | a send appends exactly the caller's bytes or returns -2 exactly when the rest needs more than 255 fragments, having then taken what fitted in the tail; outside stream mode the queue is then unchanged |
| SendQueue.SendCompletes | ikcp.c:483-547 | whole messages stay whole behind whole messages, in either mode |
| SendQueue.MessageFragments | ikcp.c:519-547 | a non-stream message is refused with nothing queued exactly if it is longer than 255 segments; else it becomes max(1, ceil(len/mss)) fragments counting down to 0, all but the last full |
| SendQueue.StreamMerges | ikcp.c:483-547 | in stream mode a send fills up the tail of the queue first, which then has min(mss, old + new) bytes beginning with the old ones; the rest, and no more, goes into new segments, all but the last full; the code is -2 exactly if the rest needs more than 255 of them |
| SendBuffer.UnaRemoves | ikcp.c:607-621 | a cumulative field, arbitrary, removes exactly the segments serially before it |
| SendBuffer.AckRemoves | ikcp.c:585-605 | a selective acknowledgement removes the segment with its number and nothing else |
| SendBuffer.OvertakeBumps | ikcp.c:623-640 | fast acknowledgement bumps exactly the segments serially before the number, once each |
| SendBuffer.ShrinkKeeps | ikcp.c:574-583 | `snd_una` moves forward to the head, never past `snd_nxt`, and all distances shrink by as much |
| SendBuffer.AcknowledgedKeeps | ikcp.c:803-812 | both acknowledgements of one segment keep the buffer ascending inside the window |
| Receiver.DrainMoves | ikcp.c:730-741 | draining moves the longest run of next numbers that the queue has room for, in order, and leaves the buffer drained |
| Receiver.FindPlaces | ikcp.c:707-717 | the scan from the tail finds the place between smaller and larger numbers, and finds a duplicate exactly if there is one |
| Receiver.ArriveKeepsSorted | ikcp.c:695-741 | whatever the window has been set to before, every arrival keeps the receive buffer sorted, free of duplicates and ahead of the next number, and reaches no further than the window or what was there |
| Receiver.ArriveKeepsTidy | ikcp.c:695-741 | every arrival keeps the receive buffer sorted, free of duplicates, in the window and drained, and the queue within its limit |
| Receiver.BufferFits | ikcp.c:695-741 | buffered segments whose numbers are distinct and within a limit are at most that many, so the buffer never holds more than the window |
| Receiver.FitIsLongestIff | ikcp.c:384-415 | for any payloads: the segments taken are the longest prefix whose bytes fit, if and only if the sum in 32 bits does not wrap to within the room at the first that does not fit |
| Receiver.ShortStops | ikcp.c:384-415 | payloads of less than 2^31 bytes never wrap it so |
| Receiver.LoopTakes | ikcp.c:384-415 | taking segment after segment with a sum in 32 bits ends with the bytes and the number of segments specified |
| Receiver.ReceiveMoves | ikcp.c:358-441 | any receive or peek, in any window: the bytes of a prefix are returned, also by a peek, that prefix is removed unless peeking, the refill is in number order, the buffer stays sorted, and a drained receiver stays drained |
| Receiver.ReceiveDelivers | ikcp.c:358-441 | in a tidy receiver a receive returns the bytes of a prefix of whole segments and their count in 32 bits, removes exactly it, refills in number order, stays tidy, and tells the window exactly when the queue was full and is no longer; the prefix is the longest that fits if and only if the sum does not wrap to within the room |
| Receiver.PeekChangesNothing | ikcp.c:358-441 | a peek returns the bytes and code of a receive; it leaves the receiver as it was if and only if the queue is empty or the receiver is drained |
| Receiver.GrowthKeepsTidyIff | ikcp.c:1292-1303 | growing the window keeps a tidy receiver tidy if and only if the next segment is not waiting in the buffer; a queue that is not full is enough, and otherwise a peek then moves segments |
| Receiver.ArrivalWaits | ikcp.c:695-741 | that state is reached: the next number arrives at a full queue, waits in the buffer, and growth then breaks tidiness |
| Receiver.PeekSizeIsRemainder | ikcp.c:447-469 | on any part of a fragment sequence the size is known exactly when the rest of the head message is queued, and is then its byte count |
| Confluence.ArrivalOrderIrrelevant | ikcp.c:695-755 | any two arrival sequences with the same segments, however ordered and repeated, end in the same queue, buffer and next number |
| Timer.NothingBeforeWakeUp | ikcp.c:1205-1239 | before the time that check returns, an update would not flush and no buffered segment is due, across wrap-around |
| Timer.WakeUpIsLatest | ikcp.c:1205-1239 | no later answer of check would do: at the time returned an update would flush, or a buffered segment's time is up (or exactly half the number space away), or it is an interval ahead; it is never further ahead |
| Timer.NextFlushIsNear | ikcp.c:1166-1191 | after any update the next flush is 1 to 10000 ms ahead, within the interval if it flushed, and it flushes exactly when the schedule says so |
| Timer.ScheduleKeepsPhase | ikcp.c:1173-1190 | a flush less than an interval late puts the next one an interval after its own time, any other an interval from now; without a flush the schedule stays |
| Packing.PackAppends | ikcp.c:1105-1122 | packing appends one whole segment to what is encoded, keeps every datagram within the size, and closes one only when the next segment does not fit |
| Packing.FinishFits | ikcp.c:1130-1134 | what goes out is exactly what was encoded, in non-empty datagrams within the size, each begun because its first segment did not fit behind the one before |
| FlushFacts.AcksEncoded | ikcp.c:947-970 | a prefix of the list is encoded, once each and in order; all of it unless refused |
| FlushFacts.ProbesEncoded | ikcp.c:994-1028 | the probes encoded, followed by those still wanted, are exactly those that were wanted, the question before the answer; without refusal none is still wanted |
| FlushFacts.NumberingMoves | ikcp.c:1034-1056 | numbering moves a prefix of the queue behind the buffer with consecutive numbers, and stops exactly at the window |
| FlushFacts.DataEncoded | ikcp.c:1062-1128 | the data phase encodes exactly the segments whose count it raises, as it leaves them |
| FlushFacts.DataSteps | ikcp.c:1062-1128 | every segment is left as skipped, transmitted or refused; without refusal each one that is due is transmitted |
| FlushFacts.DeadExactly | ikcp.c:1124-1126 | the link is given up exactly when a transmission reaches the limit |
| FlushFacts.NotDueIff | ikcp.c:1070-1095 | a segment is not due right after its transmission if and only if its timeout is from 1 to 2^31 |
| FlushFacts.PreparedSettlesIff | ikcp.c:1070-1100 | one transmission, or the decision not to transmit, leaves the segment sent and not due if and only if count and timeout have the room |
| Trace.FlushAccount | ikcp.c:922-1158 | for every behaviour of the callback: the content of the datagrams in order (acknowledgements, the probes that the timer and the peer asked for, each transmitted segment), what is left of acknowledgements, probes and queue, which counts rose; every datagram is whole segments within the size, and ends only where the next does not fit |
| Trace.UnrefusedFlush | ikcp.c:1062-1128 | after an unrefused flush nothing waits to be acknowledged; and every buffered segment has been sent and is not due, if and only if each that was there before had room in its count and timeout for what its cause of transmission does to them |
| Retries.RunRetries | ikcp.c:1062-1128 | in every run, a buffered segment's count is at most the number of flushes since the buffer was empty, and its timeout at most 4000 times as much, and at least 1 for up to 1073741 flushes |
| Retries.UnrefusedFlushInRun | ikcp.c:1062-1128 | so in every run with at most 536869 flushes since the buffer was empty, an unrefused flush leaves nothing to acknowledge and nothing due, with nothing assumed of counts and timeouts |
| Retries.FlushLimitIsReached | ikcp.c:1075-1084 | a witness for that number: transmitted again and again with the largest timeout, a segment is not due at once after transmission 536870, and is after the next |
| Trace.FlushGivesUpExactly | ikcp.c:1124-1126 | a flush sets the state to -1 exactly if some encoding in it reaches `dead_link` |
| FlushOutcome.FlushSender | ikcp.c:1031-1157 | a flush that comes to its data, for every callback: the windows bound what is in flight if it numbers anything, and one of them is used up if it leaves a queue; a segment is sent exactly if it never was, or its time has come, or it is overtaken as often as the setting says, or once with nothing left to number; new timeout, time and header fields for each of these; the segment at which it is refused; the congestion window after expired and overtaken segments; the count of timeouts |
| FlushOutcome.FlushHeaders | ikcp.c:947-1026 | which acknowledgements and probes are left: those from the first refused question on; the probe timer; before the first update nothing happens, and a flush that does not come to its data leaves the sender alone |
| FlushOutcome.ReachesDataIff | ikcp.c:930-1017 | a flush comes to its data exactly if it is not before the first update and none of the questions for acknowledgements and wanted probes is refused |
| FlushOutcome.FlushWires | ikcp.c:935-1134 | everything that a flush hands out, field by field and in order: acknowledgements with number and time, probes, data with the current time; each with the next expected number and the room in the receive queue |
| FlushOutcome.FlushAbandons | ikcp.c:948-1017 | a flush that is refused before its data has encoded exactly the headers granted so far, and has handed out all but the unfinished datagram, which is lost |
| FlushOutcome.UpdateFlushes | ikcp.c:1166-1191 | an update flushes exactly if it is the first, or the schedule has come, or it is more than 10 s ahead, and otherwise only takes the time |
| Operations.InputKeeps | ikcp.c:761-902 | arbitrary bytes, on every return path, keep the invariant, a tidy receiver tidy and a sound congestion window sound; `snd_una` never goes back or past `snd_nxt` |
| InputOutcome.InputTurns | ikcp.c:761-902 | arbitrary bytes, on every return path: they are explained as segments and a reason to stop; each segment takes its turn as its fields say, in order; after a good end fast acknowledgement, and the congestion window grows as over the integers exactly if the send window moved and the peer has room for more |
| InputOutcome.ProcessTurns | ikcp.c:803-871 | one segment: exactly what it acknowledges is gone; the peer's window is what it says; an acknowledgement whose time is not ahead is a sample; a PUSH before the end of the window is acknowledged and arrives; a question is noted |
| InputOutcome.MaxAckIsFurthest | ikcp.c:813-820 | of selective acknowledgements less than half the number space apart, the one used for fast acknowledgement is the furthest |
| InputOutcome.TurnsTogether | ikcp.c:803-862 | in all, the peer's window is the last one told, an answer is owed exactly if it was or was asked for, and the congestion window waits for the end |
| Operations.FlushKeeps | ikcp.c:922-1158 | so does a flush under any callback, which never touches the receiver |
| Operations.DeliverKeeps | ikcp.c:358-441 | so does a receive of any length; a peek leaves the whole endpoint as it was if and only if the queue is empty or the receiver is drained |
| Operations.DeliverTells | ikcp.c:358-441 | a receive owes the peer a window notice exactly if the queue was full and is not any more |
| Operations.NoDelaySets | ikcp.c:1266-1290 | a setting is changed by an argument that is not negative and else stays, the interval to the nearest value from 10 to 5000, the minimal timeout with the mode |
| Operations.WindowsSet | ikcp.c:1292-1303 | each window is changed by a positive argument, and nothing else is |
| Operations.CreateDefaults | ikcp.c:243-304 | the numbers of a new control block |
| Operations.RunKeeps | ikcp.c:358-1303 | so does any sequence of calls with any arguments, and with window changes that keep a receiver tidy, or resend settings that fit, it also keeps the receiver tidy, or the congestion window sound |
| Operations.Reachable | ikcp.c:243-1303 | in every reachable state: sender ordered, receive buffer sorted, `ssthresh >= 2`, timeout from 30 to 4000, minimal timeout by the mode; if the receive window never shrank, nor grew while a segment waited, also queue and buffer in the window and drained; if every resend setting fits, also `cwnd == incr / mss` |
| Tracking.ArrivePlaced | ikcp.c:695-755 | an arriving fragment of the peer's history takes its place in it |
| Tracking.DeliveredPlaced | ikcp.c:358-441 | delivery keeps delivered and queued fragments a prefix of the history |
| Tracking.AcksTracked | ikcp.c:803-853 | what leaves the send buffer is only what the acknowledgements name |
| Tracking.NumberedTracked | ikcp.c:1034-1056 | numbering continues the history |
| Ledger.InputAgrees | ikcp.c:761-902 | for arbitrary bytes on every return path: what stays in the send buffer keeps its index, its fragment and its count |
| Ledger.FlushAgrees | ikcp.c:922-1158 | a flush under any callback appends what it numbers to the history and what it encodes to the log, and every data segment it encodes carries the fragment of its index |
| Ledger.RunAgrees | ikcp.c:358-1303 | over any calls with any arguments the ledger agrees with the sender and is only extended |
| Ledger.LedgerInRun | ikcp.c:243-1303 | in every run of one endpoint, with any bytes arriving: each buffered segment's `xmit` is the number of times it has been encoded for output, refusals included, in 32 bits; it carries the fragment it was numbered with, and so did every encoding of it; the bytes taken from the application are the numbered fragments followed by the queue |
| Network.AbsorbStep | ikcp.c:779-875 | one segment of a datagram keeps both endpoints safe: an acknowledgement is recorded before the segment is kept, and yet names only what is held |
| Network.ArrivalStep | ikcp.c:761-902 | a datagram, repeated, late or out of order, keeps them safe |
| Network.FlushStep | ikcp.c:922-1158 | a flush under any callback keeps them safe and sends only good datagrams |
| Network.StepKeepsSafe | ikcp.c:358-1303 | every event keeps the whole system safe, and only extends each history of numbered fragments: none is altered |
| Network.RunKeepsSafe | ikcp.c:358-1303 | so does every run |
| Network.EndToEnd | ikcp.c:358-1239 | in every run, whatever the windows and settings are changed to, both directions, both modes: bytes received followed by bytes queued are a prefix of the bytes sent, and every numbered segment is with the sender or accepted by the receiver |
| Network.PeekSizeInRun | ikcp.c:447-469 | in every run the message size is reported exactly when the rest of the message has arrived |
| Network.CountsInRun | ikcp.c:1062-1111 | the same counts and payloads for both endpoints of a network, as a consequence of its invariant |
| Kcp.LoopOvertakes | ikcp.c:630-639 | bumping in place, position by position, gives what fast acknowledgement is specified to give |
| Kcp.LoopCuts | ikcp.c:526-547 | appending fragment after fragment gives the queue followed by the fragmentation |
| SendBuffer.ScanFinds | ikcp.c:592-600 | the scan that stops at the number has removed exactly that position |
| SendBuffer.ScanMisses | ikcp.c:592-604 | a scan that passes the place of the number removes nothing |
| Kcp.DatagramsFit | ikcp.c:961-1134 | every byte string handed to the output callback is non-empty and at most the datagram size |
| Kcp.Kcp.constructor | ikcp.c:243-304 | a new object satisfies the invariant and has the defaults |
| Kcp.Kcp.UpdateAck | ikcp.c:556-572 | the fields become the filter's result |
| Kcp.Kcp.ParseUna | ikcp.c:607-621 | the loop removes what the cumulative acknowledgement removes, and the counter follows |
| Kcp.Kcp.ParseAck | ikcp.c:585-605 | the loop removes what the selective acknowledgement removes, and the counter follows |
| Kcp.Kcp.ParseFastAck | ikcp.c:623-640 | the loop bumps what fast acknowledgement bumps |
| Kcp.Kcp.DrainBuffer | ikcp.c:730-741 | the loop moves what draining moves |
| Kcp.Kcp.ParseData | ikcp.c:695-741 | insertion from the tail and draining do what an arrival does |
| Kcp.Kcp.TakeSegments | ikcp.c:384-415 | the loop returns the bytes of the longest prefix that fits and removes it unless it peeks |
| Kcp.Kcp.Recv | ikcp.c:358-441 | state, code and bytes are those of a delivery, for every length; a peek leaves the state as it was if and only if the queue is empty or the receiver is drained |
| Kcp.Kcp.PeekSize | ikcp.c:447-469 | the loop computes the size of the next message |
| Kcp.Kcp.AppendFragments | ikcp.c:526-547 | the loop appends the fragments, and the counter follows |
| Kcp.Kcp.Send | ikcp.c:475-550 | state and code are those of an accepted send; a negative length changes nothing |
| Kcp.Kcp.ProcessSegment | ikcp.c:803-871 | one decoded segment does to the state what the specification says |
| Kcp.Kcp.InputSegments | ikcp.c:773-875 | the loop leads to the state and code of the parsed datagram |
| Kcp.Kcp.Input | ikcp.c:761-902 | for any bytes: state and code are the specification's, and the invariant holds on every return path |
| Kcp.Kcp.PackSegment | ikcp.c:1105-1122 | the scratch buffer holds the encodings of what is pending, and what went out are the encodings of the finished datagrams |
| Kcp.Kcp.SendAcks | ikcp.c:947-970 | the array, the buffer and the output follow the acknowledgement phase, refused or not |
| Kcp.Kcp.SendProbes | ikcp.c:972-1026 | the same for the probe timer and the probes |
| Kcp.Kcp.NumberSegments | ikcp.c:1034-1056 | the loop numbers what the specification numbers |
| Kcp.Kcp.SendData | ikcp.c:1062-1128 | the loop transmits, refuses and gives up as the specification does |
| Kcp.Kcp.Congest | ikcp.c:1136-1157 | the window fields become the specification's |
| Kcp.Kcp.Flush | ikcp.c:922-1158 | state and output of a whole flush are the specification's, and the invariant is kept |
| Kcp.Kcp.Update | ikcp.c:1166-1191 | the same for an update |
| Kcp.Kcp.Check | ikcp.c:1205-1239 | the loop computes the wake-up time |
| Kcp.Kcp.SetNoDelay | ikcp.c:1266-1290 | the settings change as specified and the invariant is kept |
| Kcp.Kcp.SetWindows | ikcp.c:1292-1303 | the windows change as specified and the invariant is kept |
| Kcp.Kcp.UseStream | ikcp.c:1387-1390 | stream mode is on and the invariant is kept |

## Left out

- Kcp.Kcp.constructor: the datagram size is fixed at creation, with `mss` at most 65535; changing it with data queued (`ikcp_setmtu`) is not modelled, because the packing invariants are relative to it.
- Rtt.FilterIsIdealIff: for values that are not negative; the code passes no negative sample (ikcp.c:807-809), and only after an update that has wrapped can the variation be negative.
- Rtt.RunIsIdeal: samples are below 2^28; `Rtt.FollowsIdealIff` has the exact condition.
- InputOutcome.MaxAckIsFurthest: the acknowledged numbers are less than half the number space apart, beyond which serial comparison does not order them; `InputOutcome.ProcessTurns` has the comparison itself, for any numbers.
- Retries.UnrefusedFlushInRun: at most 536869 flushes; `Retries.FlushLimitIsReached` shows why, and `Trace.UnrefusedFlush` has the exact condition for each flush.
- Network.EndToEnd: a datagram is delivered only while the numbers in it are at most 2^31 behind the sender's, and receive windows are at most 2^31 - 65536; 32-bit numbers cannot be told apart beyond that.
- Network.StepKeepsSafe: for the same datagrams and windows.
- Network.RunKeepsSafe: likewise.
- Network.PeekSizeInRun: likewise.
- Network.CountsInRun: likewise; `Ledger.LedgerInRun` needs none of it.
- Kcp.Kcp.Flush: the output callback is a trace and the refusal callback an oracle over the number of the question; their arguments and return values are otherwise not modelled.
- In `Kcp.Kcp` a queue is a field holding a sequence of segment values, so that relinking in place and freeing are not visible there; `Rings` has them for the list macros and the moves that the operations make, and `RingLoops` for the loops that unlink or link while walking, with the segment around each link given by a map. Settings, the filter and the clock are grouped into records, and the probe mask is two flags.
- Signed overflow, undefined in C, is modelled as two's-complement wrap-around; `long` has 64 bits; the size that `ikcp_peeksize` adds up is an `int`, and the number of waiting acknowledgements fits 32 bits.
- Allocation always succeeds, payload buffers are not null, and logging, allocator hooks, `ikcp_qprint` and the fields that no operation reads are left out.
- Liveness: acknowledgements that a refused flush has packed are lost, and recovery relies on retransmission; only safety and conservation are stated.
- The remaining getters and the setters of callbacks would only add easy members; `udp_session`, `udp_connection`, `connection.h` and the `common_*` headers hold no protocol logic.
