# Verified models of the SRT packet buffers, HaiCrypt keying and file framing

This project models the most intricate parts of the repository and proves what they are for.

**Receiver buffer** (`CRcvBuffer`). A circular array of slots with a start, a read cursor, a window length, a
position of the first message readable out of order, and a notch for partial stream reads. `ReceiverBuffer` is the
class over the array and its positions; every method is proved against a function of `ReceiverSpec`, which sees the
same buffer unrolled from its start. On top of those functions stand the representation invariant
(`ReceiverInvariant`) and theorems over whole runs: at most once (`ReceiverRuns`), the incremental cursor against a
scan from scratch (`ReceiverCursor`), out-of-order reads (`ReceiverOutOfOrder`), dropping a message
(`ReceiverDropMessage`), and fidelity in message mode (`ReceiverDelivery`) and in stream mode (`ReceiverStream`).
`ReceiverExact` says of each operation, number by number, exactly what it accepts, keeps and loses.

**Sender buffer** (`CSndBuffer`). A linked ring that grows in place: `SenderBuffer` is the class over the blocks,
`SenderSpec` the segmentation and the cursors, `SenderRuns` whole runs, and `SenderExact` what happens to each block
and each message number over a run. `EndToEnd` joins sender, network and receiver.

**HaiCrypt.** `KeyWrap` is the RFC 3394 fallback (sections 2.2.1 and 2.2.2) as in-place byte loops, and `KeyWrapRfc` the
proof that it is the shift register of the RFC. `KeyMaterial` is the Keying Material message and the receiving session,
`KeyMaterialExact` its bytes and its exact acceptance, `KeyRotation` the even/odd state machine of the sending session,
`KeyAgreement` the two parties over every run, and `OutBuffer` the circular output buffer.

**File transfer.** `FileFraming` holds the segmentation loop of the sender and the reassembly loop of the receiver.

`SeqNo` models the 31-bit circular numbers; a live sequence number is an unbounded integer whose projection travels in
the packet, and live distances are below half the range. `Packets`, `Streams`, `Buffers` and `Arith` hold shared
definitions. `dafny verify dfyconfig.toml` checks the whole project.

## Results worth knowing

- The read cursor is not exact right after `readMessage`: `StaleCursorRun` is a run in which a complete message stays
  unreported until the next arrival, and `ReadKeepsExactIff` says exactly when this happens.
- In stream mode a message drop can leave the read cursor behind the start, because stream reads leave dropped slots
  waiting there and the cursor is recomputed only if a slot up to it changes: `LostCursorRun` is such a run, and
  `DropMessageKeepsIff` says exactly when the invariant survives.
- In stream mode no drop resets the notch of a half-read packet. If that packet is dropped, bytes of the next one are
  lost, or the length to copy becomes negative (`LostBytesRun`, `CutLosesBytes`). `CutToIff` and `CutRangeIff` give the
  exact condition for each kind of drop, and `StreamReadsAroundCuts` shows that runs which respect it are faithful.
- A packet may be overtaken by up to `refresh_rate - pre_announce + 1` later packets and still find its key;
  `AgreementIff` gives the exact condition and `BoundIsTight` shows that one more is too many.
- The circular output buffer has room for six padded messages but keeps only five consecutive regions apart
  (`FiveDisjoint`); for six, requests must stay at about six sevenths of a message or less (`SixDisjointIff`).
- A file that fills its segments exactly never gets the end-of-file flag (`EofExactly`); the round trip holds all the
  same, because the next first segment closes the file.
- The receiver compares every Keying Material message with the cache of the even context, although a comment in the
  code speaks of even or both keys only: the index is read from a field that is zero in these messages.
  `SkipDelivers` shows that this is harmless.

## Model

| member | source | states |
|---|---|---|
| `SeqNo.SeqOffExact` | structure/submodule/srt/srtcore/common.h:672-681 | the circular offset of two 31-bit numbers is the true distance whenever that is below half the range, in both directions |
| `SeqNo.IncSeqWraps` | structure/submodule/srt/srtcore/common.h:683-692 | stepping a 31-bit number by one or by several, up or down, is ordinary arithmetic followed by the projection |
| `ReceiverBuffer.RcvBuffer.constructor` | structure/submodule/srt/srtcore/buffer_rcv.cpp:118-134 | an empty buffer: every slot free, all cursors at the start, no unit taken from the pool |
| `ReceiverBuffer.IsInRange` | structure/submodule/srt/srtcore/buffer_rcv.cpp:79-94 | a position is in range exactly when its offset from the start, counted around the circle, is at most the window length |
| `ReceiverBuffer.LocateExact` | structure/submodule/srt/srtcore/common.h:672-681 | a packet within half the range of the start is filed under its true, unbounded number |
| `ReceiverBuffer.RcvBuffer.Insert` | structure/submodule/srt/srtcore/buffer_rcv.cpp:151-207 | the whole new state and return code (stored, duplicate, too old, beyond the window) for every packet, with the representation invariant kept: slot of its number, counters, window, cursors |
| `ReceiverBuffer.RcvBuffer.DropUpTo` | structure/submodule/srt/srtcore/buffer_rcv.cpp:209-250 | everything before the number leaves, fillers behind it are passed over, the cursor is rescanned only if it fell out of the window; invariant kept |
| `ReceiverBuffer.RcvBuffer.DropAll` | structure/submodule/srt/srtcore/buffer_rcv.cpp:252-259 | drops up to the number at the end of the window, and nothing when the window is empty; that number is the true end when the window is shorter than half the sequence range |
| `ReceiverBuffer.RcvBuffer.DropMessage` | structure/submodule/srt/srtcore/buffer_rcv.cpp:261-383 | the forward loop over the range, the backward loop over the head of the message, and the cursor repair equal the specification, for every buffer; the representation invariant is kept if and only if the cursor survives the drop |
| `ReceiverBuffer.RcvBuffer.ReadMessage` | structure/submodule/srt/srtcore/buffer_rcv.cpp:385-490 | the bytes returned are the joined payloads of the packets taken out, cut to the caller's buffer; in order the start moves on, out of order the slots stay behind marked as read |
| `ReceiverBuffer.RcvBuffer.ReadBufferTo` | structure/submodule/srt/srtcore/buffer_rcv.cpp:520-599 | stream mode: copies packet after packet through the notch; state and bytes equal the specification, and the out-of-range repair at the end is never needed |
| `ReceiverBuffer.RcvBuffer.IsRcvDataReady` | structure/submodule/srt/srtcore/buffer_rcv.cpp:700-711 | true exactly when an in-order message is available or an out-of-order one is remembered |
| `ReceiverBuffer.RcvBuffer.CountReadable` | structure/submodule/srt/srtcore/buffer_rcv.cpp:693-698 | the wrapped distance of two positions is the number of slots before the cursor |
| `ReceiverBuffer.RcvBuffer.ReleaseUnitInPos` | structure/submodule/srt/srtcore/buffer_rcv.cpp:769-775 | gives the unit back to the pool and frees the slot |
| `ReceiverBuffer.RcvBuffer.DropUnitInPos` | structure/submodule/srt/srtcore/buffer_rcv.cpp:777-793 | drops a stored unit, keeps both counters exact and forgets the out-of-order position if it was there |
| `ReceiverBuffer.RcvBuffer.ReleaseNextFillerEntries` | structure/submodule/srt/srtcore/buffer_rcv.cpp:795-809 | moves the start over the longest run of read or dropped slots, and no further |
| `ReceiverBuffer.RcvBuffer.UpdateNonreadPos` | structure/submodule/srt/srtcore/buffer_rcv.cpp:811-844 | the cursor ends behind the longest run of complete messages from where it was |
| `ReceiverBuffer.RcvBuffer.OnInsertNotInOrderPacket` | structure/submodule/srt/srtcore/buffer_rcv.cpp:861-903 | the out-of-order position becomes the head of the message the packet completes, if it completes one and none is remembered |
| `ReceiverBuffer.RcvBuffer.CheckFirstReadableOutOfOrder` | structure/submodule/srt/srtcore/buffer_rcv.cpp:905-931 | tells exactly whether the remembered message is still stored in full |
| `ReceiverBuffer.RcvBuffer.SearchReadableOutOfOrder` | structure/submodule/srt/srtcore/buffer_rcv.cpp:933-994 | the search, whose continue paths skip the test for the last position, terminates inside the window because it counts down the packets stored without the order flag, and equals a scan of the whole window |
| `ReceiverBuffer.RcvBuffer.UpdateFirstReadableOutOfOrder` | structure/submodule/srt/srtcore/buffer_rcv.cpp:933-994 | the search runs only when nothing is remembered and nothing is readable in order |
| `ReceiverBuffer.RcvBuffer.ScanNotInOrderMessageRight` | structure/submodule/srt/srtcore/buffer_rcv.cpp:996-1025 | finds the end of the message to the right exactly when it is stored without gap |
| `ReceiverBuffer.RcvBuffer.ScanNotInOrderMessageLeft` | structure/submodule/srt/srtcore/buffer_rcv.cpp:1027-1056 | finds the head of the message to the left exactly when it is stored without gap |
| `ReceiverBuffer.CountExact` | structure/submodule/srt/srtcore/buffer_rcv.cpp:151-207 | the counter the buffer keeps is the number of slots that hold a packet, or of those that hold one without the order flag |
| `ReceiverInvariant.InsertKeeps` | structure/submodule/srt/srtcore/buffer_rcv.cpp:151-207 | representation invariant after an insertion |
| `ReceiverInvariant.DropUpToKeeps` | structure/submodule/srt/srtcore/buffer_rcv.cpp:209-250 | representation invariant after a drop up to a number |
| `ReceiverInvariant.DropMessageKeepsIff` | structure/submodule/srt/srtcore/buffer_rcv.cpp:261-383 | a message drop keeps the representation invariant if and only if no filler waits at the start, or the one waiting there was read and lies in the range, or the range is all before the start |
| `ReceiverInvariant.ReadMessageKeeps` | structure/submodule/srt/srtcore/buffer_rcv.cpp:385-490 | representation invariant after a read in or out of order |
| `ReceiverInvariant.ReadStreamKeeps` | structure/submodule/srt/srtcore/buffer_rcv.cpp:520-599 | representation invariant and a notch inside its packet after a stream read of any size |
| `ReceiverRuns.StepKeeps` | structure/submodule/srt/srtcore/buffer_rcv.cpp:151-490 | every event of a run keeps the invariant, the size and the mode |
| `ReceiverRuns.ConsumedStays` | structure/submodule/srt/srtcore/buffer_rcv.cpp:151-490 | a delivered or dropped number never becomes fresh again |
| `ReceiverRuns.DropToConsumes` | structure/submodule/srt/srtcore/buffer_rcv.cpp:209-250 | a drop up to a number consumes every number before it |
| `ReceiverRuns.DiscardConsumes` | structure/submodule/srt/srtcore/buffer_rcv.cpp:209-383 | what a drop takes out of the buffer, and every number of its range the buffer has a slot for except a message to be kept, is consumed, with or without a message number |
| `ReceiverRuns.AtMostOnce` | structure/submodule/srt/srtcore/buffer_rcv.cpp:151-490 | over every run of arrivals, reads and drops, a number once delivered or discarded by a drop is never accepted or delivered again |
| `ReceiverCursor.ScanIsLongest` | structure/submodule/srt/srtcore/buffer_rcv.cpp:811-844 | the scan ends behind the longest chain of complete messages from the start |
| `ReceiverCursor.CursorIsScan` | structure/submodule/srt/srtcore/buffer_rcv.cpp:204-374 | after every accepted arrival of every run in which no `dropUpTo` cuts a readable message in two, the incrementally kept cursor is the end of the longest chain of complete messages, as a scan from scratch finds it |
| `ReceiverCursor.ReadKeepsExactIff` | structure/submodule/srt/srtcore/buffer_rcv.cpp:444-490 | right after any read the cursor is still exact if and only if the read did not start at the first slot, or the start did not pass over fillers beyond the cursor onto a complete message |
| `ReceiverCursor.StaleCursorRun` | structure/submodule/srt/srtcore/buffer_rcv.cpp:470-474 | a concrete run whose read leaves the cursor behind a message that is stored in full |
| `ReceiverCursor.StaleCursor` | structure/submodule/srt/srtcore/buffer_rcv.cpp:470-474 | in that state the scan from scratch finds the message the cursor misses |
| `ReceiverOutOfOrder.ScanMissesNone` | structure/submodule/srt/srtcore/buffer_rcv.cpp:933-994 | the out-of-order search misses no message that is stored in full |
| `ReceiverOutOfOrder.InsertFaithful` | structure/submodule/srt/srtcore/buffer_rcv.cpp:151-207 | after an arrival of the stream every stored packet is still the one the stream has for its slot |
| `ReceiverOutOfOrder.RunOoo` | structure/submodule/srt/srtcore/buffer_rcv.cpp:861-994 | every event of every run, drops included, keeps the out-of-order position at nothing or at the first packet of a message stored through to its last |
| `ReceiverOutOfOrder.OutOfOrderReads` | structure/submodule/srt/srtcore/buffer_rcv.cpp:385-490 | hence no read of any run meets an empty slot, and every out-of-order read returns exactly one whole message |
| `ReceiverOutOfOrder.ExactIsNotWholeAtStart` | structure/submodule/srt/srtcore/buffer_rcv.cpp:385-398 | with an exact cursor at the start, the message remembered out of order never starts at the first slot |
| `ReceiverDropMessage.DropLeftExact` | structure/submodule/srt/srtcore/buffer_rcv.cpp:327-364 | the backward loop drops exactly the packets of the message |
| `ReceiverDropMessage.KeepIsDrop` | structure/submodule/srt/srtcore/buffer_rcv.cpp:296-351 | unless the message is one stored packet, the instruction to keep what is there makes no difference to the slots |
| `ReceiverDropMessage.DropWholeMessage` | structure/submodule/srt/srtcore/buffer_rcv.cpp:261-383 | a drop request with a message number and a suffix of the message removes every stored packet of it, also before the suffix, no packet of another message, and consumes the whole suffix so that late arrivals are refused; told to keep what is there it does the same, except that a stored message of one packet stays and nothing changes |
| `ReceiverDelivery.ReadsArePrefix` | structure/submodule/srt/srtcore/buffer_rcv.cpp:151-490 | in-order messages: over every run the messages read are the first ones sent, each in full |
| `ReceiverDelivery.CompleteIsReadable` | structure/submodule/srt/srtcore/buffer_rcv.cpp:811-844 | once all packets of the next message are stored, it is readable and the next read returns it |
| `ReceiverDelivery.EveryReadIsMessage` | structure/submodule/srt/srtcore/buffer_rcv.cpp:385-490 | messages of both kinds and both kinds of drop: over every run in which each `dropUpTo` number starts a message, every read takes out exactly one message of the stream |
| `ReceiverDelivery.NoMessageTwice` | structure/submodule/srt/srtcore/buffer_rcv.cpp:385-490 | and two reads of a run take out different messages |
| `ReceiverDelivery.CutKeepsChainIff` | structure/submodule/srt/srtcore/buffer_rcv.cpp:209-250 | a `dropUpTo` leaves the cursor on a chain of complete messages if and only if it does not land inside a readable message |
| `ReceiverDelivery.StartIsClean` | structure/submodule/srt/srtcore/buffer_rcv.cpp:209-250 | a number that starts a message of the stream never lands inside one |
| `ReceiverStream.ReadTakesAll` | structure/submodule/srt/srtcore/buffer_rcv.cpp:520-599 | a stream read returns all the bytes available before the cursor, up to the size asked for |
| `ReceiverStream.StreamReadsArePrefix` | structure/submodule/srt/srtcore/buffer_rcv.cpp:520-599 | stream mode without drops: for any insertion order and any read sizes the bytes read are a prefix of the payloads in sequence order |
| `ReceiverStream.StreamReadsAroundCuts` | structure/submodule/srt/srtcore/buffer_rcv.cpp:209-599 | stream mode with drops: over every safe run the bytes read are the payloads in sequence order with nothing but whole packets cut out, each where the reading position was at the drop |
| `ReceiverStream.StreamingStep` | structure/submodule/srt/srtcore/buffer_rcv.cpp:151-599 | a safe event keeps the invariant and the notch inside its packet, and moves the reading position by the bytes it returns or over whole packets |
| `ReceiverStream.CutToIff` | structure/submodule/srt/srtcore/buffer_rcv.cpp:209-250 | after a drop up to a number the next read starts at a packet boundary or in the packet being read if and only if no packet was half read or nothing was dropped |
| `ReceiverStream.CutRangeIff` | structure/submodule/srt/srtcore/buffer_rcv.cpp:261-383 | after a message drop it does so if and only if no packet was half read or the drop does not take the first slot, in its range or on the way back through the message |
| `ReceiverStream.CutLosesBytes` | structure/submodule/srt/srtcore/buffer_rcv.cpp:209-573 | if a drop of either kind takes a half-read packet, the next read skips as many bytes of another packet as had been read of it |
| `ReceiverStream.LostBytesRun` | structure/submodule/srt/srtcore/buffer_rcv.cpp:209-573 | a run in which a half-read packet is dropped: two bytes of the next packet are lost, or the notch is past the end of a shorter one |
| `ReceiverStream.LostCursorRun` | structure/submodule/srt/srtcore/buffer_rcv.cpp:366-374 | a run of arrival, message drop and stream read after which one more message drop leaves the read cursor behind the start |
| `ReceiverExact.InsertExact` | structure/submodule/srt/srtcore/buffer_rcv.cpp:151-207 | an arrival is accepted if and only if the buffer has a slot for its number and that number is neither stored nor delivered nor dropped; the other answers tell which failed; the packet is stored as it is and no other slot changes |
| `ReceiverExact.DropUpToExact` | structure/submodule/srt/srtcore/buffer_rcv.cpp:209-250 | exactly what is stored before the number is lost, the rest stays as it was, the count is the distance, and the start goes to the number and on only over numbers consumed before |
| `ReceiverExact.DropUpToCursor` | structure/submodule/srt/srtcore/buffer_rcv.cpp:235-245 | the cursor stays at its number, and if the start passed that, it stands behind what is readable from the start on |
| `ReceiverExact.ReadMessageExact` | structure/submodule/srt/srtcore/buffer_rcv.cpp:385-490 | a read takes out exactly the packets it delivers, and the start passes only those and numbers consumed before |
| `Packets.TakeExact` | structure/submodule/srt/srtcore/buffer_rcv.cpp:415-422 | what is copied to the caller is a prefix, as long as the caller's buffer allows |
| `ReceiverExact.InOrderFirst` | structure/submodule/srt/srtcore/buffer_rcv.cpp:385-400 | whatever can be read in order is read first, from the start on |
| `ReceiverExact.SearchesWhenIdle` | structure/submodule/srt/srtcore/buffer_rcv.cpp:933-1005 | a search for a message readable out of order happens only while nothing is readable in order |
| `ReceiverExact.DropMessageExact` | structure/submodule/srt/srtcore/buffer_rcv.cpp:261-383 | exactly the packets of the range are lost, except messages to be kept, and, when no packet of the range starts a message, the packets before it that the message runs back to without interruption |
| `ReceiverExact.DropRangeExact` | structure/submodule/srt/srtcore/buffer_rcv.cpp:283-329 | without a message number no packet outside the range is lost |
| `ReceiverExact.DropCountExact` | structure/submodule/srt/srtcore/buffer_rcv.cpp:261-383 | the number reported is the number of slots that changed |
| `ReceiverExact.StepAccounted` | structure/submodule/srt/srtcore/buffer_rcv.cpp:151-490 | no event makes a stored packet disappear without its number being consumed |
| `ReceiverExact.ArrivedStays` | structure/submodule/srt/srtcore/buffer_rcv.cpp:151-207 | over every run, a packet that arrived while the buffer had a slot for it is stored, delivered or dropped from then on |
| `ReceiverExact.StreamArrivedStays` | structure/submodule/srt/srtcore/buffer_rcv.cpp:520-599 | the same in stream mode, with partial reads and both kinds of drop |
| `ReceiverExact.StepEnd` | structure/submodule/srt/srtcore/buffer_rcv.cpp:151-207 | the end of the window moves only behind an accepted or repeated arrival further on, or along with the start |
| `ReceiverExact.EndIsHeard` | structure/submodule/srt/srtcore/buffer_rcv.cpp:151-259 | over every run from an empty buffer, the end of the window is at the start or right behind a packet that arrived |
| `ReceiverExact.ReadEndsInside` | structure/submodule/srt/srtcore/buffer_rcv.cpp:520-599 | a packet read to its last byte leaves the buffer: a stream read ends at the start of a packet or strictly inside one |
| `SenderSpec.NumPacketsExact` | structure/submodule/srt/srtcore/buffer_snd.cpp:585-588 | the rounded-up quotient: enough packets for the message, and one fewer would not do |
| `SenderSpec.MessageJoins` | structure/submodule/srt/srtcore/buffer_snd.cpp:134-237 | joining the blocks of a message gives the message back, byte for byte |
| `SenderSpec.SegmentAt` | structure/submodule/srt/srtcore/buffer_snd.cpp:185-222 | every header field of block `i` of a message, its own number and boundary bits included; no block is empty or over the packet length, and all but the last are full |
| `SenderBuffer.MakeChain` | structure/submodule/srt/srtcore/buffer_snd.cpp:86-101 | the blocks form one chain over one buffer, in disjoint regions |
| `SenderBuffer.SndBuffer.constructor` | structure/submodule/srt/srtcore/buffer_snd.cpp:67-110 | one closed ring of the given size, all cursors at the first block |
| `SenderBuffer.SndBuffer.Increase` | structure/submodule/srt/srtcore/buffer_snd.cpp:685-747 | splices a fresh chain into the ring: still one cycle, larger by one unit, regions disjoint, stored content and cursors unchanged |
| `SenderBuffer.SndBuffer.AddBuffer` | structure/submodule/srt/srtcore/buffer_snd.cpp:134-237 | appends the segments of the message, growing the ring as often as needed; message number, next sequence number, byte total; ring invariant kept |
| `SenderBuffer.SndBuffer.AckData` | structure/submodule/srt/srtcore/buffer_snd.cpp:549-567 | removes exactly the acknowledged blocks; the current cursor stays between first and last |
| `SenderBuffer.SndBuffer.DropLateData` | structure/submodule/srt/srtcore/buffer_snd.cpp:647-683 | removes exactly the leading blocks that are too late and reports their number, bytes and the next message number |
| `SenderBuffer.SndBuffer.ReadData` | structure/submodule/srt/srtcore/buffer_snd.cpp:308-368 | hands out the first unexpired block from the cursor on and stops right behind it, stamps key flags, reports how many were skipped; every block passed is either skipped and counted or handed out |
| `SenderBuffer.SndBuffer.GetMsgNoAt` | structure/submodule/srt/srtcore/buffer_snd.cpp:379-423 | the message number at an offset, or the invalid one beyond the stored blocks |
| `SenderBuffer.SndBuffer.ReadDataAt` | structure/submodule/srt/srtcore/buffer_snd.cpp:425-530 | the block at an offset, or the drop range of its message when its time to live ran out; what else changes, and what does not |
| `SenderRuns.StepHolding` | structure/submodule/srt/srtcore/buffer_snd.cpp:134-683 | what is stored is always the tail of one well-formed stream of the messages submitted |
| `SenderRuns.RunHolding` | structure/submodule/srt/srtcore/buffer_snd.cpp:134-683 | the same over every run |
| `SenderRuns.RunFromEmpty` | structure/submodule/srt/srtcore/buffer_snd.cpp:67-683 | in particular over every run from an empty buffer |
| `SenderRuns.EmittedIsOnStream` | structure/submodule/srt/srtcore/buffer_snd.cpp:308-530 | every packet put on the wire is the packet the stream has under its number |
| `SenderRuns.ResendByOffset` | structure/submodule/srt/srtcore/buffer_snd.cpp:425-530 | retransmission by offset emits the packet the stream has under first plus offset; if it expired, nothing is emitted, the range runs exactly to the last packet of its message and a cursor past it is left outside the message |
| `SenderRuns.SubmittedBytes` | structure/submodule/srt/srtcore/buffer_snd.cpp:134-237 | the payloads of the submitted packets, joined message by message, are the messages submitted |
| `SenderExact.ExpiredExact` | structure/submodule/srt/srtcore/buffer_snd.cpp:352-361 | a lifetime runs out right after origin plus length and stays run out; without one, never |
| `SenderExact.LateRunExact` | structure/submodule/srt/srtcore/buffer_snd.cpp:647-683 | exactly the leading blocks older than the given time are too late |
| `SenderExact.TotalIsJoined` | structure/submodule/srt/srtcore/buffer_snd.cpp:134-237 | the byte total is the length of the stored payloads joined |
| `SenderExact.SendPasses` | structure/submodule/srt/srtcore/buffer_snd.cpp:308-368 | first-time sending emits the first unexpired block from the cursor on and stops right behind it; every block passed before it had expired |
| `SenderExact.StepPasses` | structure/submodule/srt/srtcore/buffer_snd.cpp:308-683 | the cursor never goes back, and each block it passes was emitted, had expired, was acknowledged, was too late, or belongs to an expired message |
| `SenderExact.PassedOnce` | structure/submodule/srt/srtcore/buffer_snd.cpp:308-683 | over every run, each block behind the cursor was passed by one event for one of these reasons, and no other first-time send of the run emits it |
| `SenderExact.NoLifetimeIsSent` | structure/submodule/srt/srtcore/buffer_snd.cpp:352-361 | a block without a time to live is neither skipped nor turned into a drop request |
| `SenderExact.StepRetains` | structure/submodule/srt/srtcore/buffer_snd.cpp:549-683 | a stored block stays stored under its number with its packet unless it is acknowledged or, with all older ones, too late |
| `SenderExact.Retained` | structure/submodule/srt/srtcore/buffer_snd.cpp:549-683 | the same over every run |
| `SenderExact.SendStamps` | structure/submodule/srt/srtcore/buffer_snd.cpp:308-368 | a send stamps the blocks it passes with the key flags given, and changes nothing else |
| `SenderExact.ResendStamps` | structure/submodule/srt/srtcore/buffer_snd.cpp:425-530 | a resend notes its time in the block resent, and changes nothing else |
| `SenderExact.RunUnstamped` | structure/submodule/srt/srtcore/buffer_snd.cpp:308-368 | over every run no block carries key flags before it is sent |
| `SenderExact.MessageNumbers` | structure/submodule/srt/srtcore/buffer_snd.cpp:134-237 | over every run from an empty buffer, message `k` carries number `k % MSGNO_MAX + 1` |
| `SenderExact.NumbersDiffer` | structure/submodule/srt/srtcore/buffer_snd.cpp:234-236 | any `MSGNO_MAX` consecutive messages carry different numbers |
| `EndToEnd.WireEventIsLegal` | structure/submodule/srt/srtcore/buffer_snd.cpp:308-530 | after any run of the sender from an empty buffer, a packet it emits is the one the stream has under the number it carries, as the receiver theorems ask |
| `EndToEnd.Fidelity` | structure/submodule/srt/srtcore/buffer_rcv.cpp:151-490 | for any run of the sender with in-order messages and any order, duplication and loss on the way, the messages read are byte for byte the first ones submitted |
| `EndToEnd.Progress` | structure/submodule/srt/srtcore/buffer_rcv.cpp:811-844 | once every packet of the next message is stored, the next read returns exactly that message |
| `EndToEnd.ArrivedIsRead` | structure/submodule/srt/srtcore/buffer_rcv.cpp:151-207 | once every packet of the next message has arrived while the buffer had a slot for it, in any order and any number of times, the next read returns exactly that message |
| `EndToEnd.EveryReadIsSubmitted` | structure/submodule/srt/srtcore/buffer_rcv.cpp:385-490 | messages of both kinds in any mixture, with loss, duplication, reordering and drops that cut no message in two: every read returns, byte for byte, one of the messages submitted |
| `EndToEnd.NoneReadTwice` | structure/submodule/srt/srtcore/buffer_rcv.cpp:385-490 | and no two reads return the same one |
| `EndToEnd.ExpiredIsDropped` | structure/submodule/srt/srtcore/buffer_snd.cpp:425-530 | after any run of the sender: when a block to be sent again has expired, the reported range ends at the number of the last block of its message, and the request carried out by the receiver removes exactly that message and refuses its late packets |
| `EndToEnd.NumberIsUnique` | structure/submodule/srt/srtcore/buffer_snd.cpp:234-236 | a window no longer than the range of message numbers holds no packet of another message with the same number |
| `KeyWrap.StepsUndo` | structure/submodule/srt/haicrypt/cryspr.c:184-205 | one unwrapping step undoes one wrapping step, and conversely |
| `KeyWrap.AllRoundsUndo` | structure/submodule/srt/haicrypt/cryspr.c:184-248 | so do any number of rounds run forward and then backward |
| `KeyWrap.UnwrapOfWrap` | structure/submodule/srt/haicrypt/cryspr.c:165-255 | unwrapping a wrapped key returns the key, for every length the code wraps and every permutation of blocks |
| `KeyWrap.UnwrapOnlyWrapped` | structure/submodule/srt/haicrypt/cryspr.c:210-255 | unwrapping accepts an input if and only if it is the wrapping of some key, and returns that key |
| `KeyWrap.StepNumberFits` | structure/submodule/srt/haicrypt/cryspr.c:179-224 | the step counter never exceeds 32 bits, for every input length |
| `KeyWrap.FoldedWord` | structure/submodule/srt/haicrypt/cryspr.c:196-202 | folding in one byte, or four when the counter exceeds a byte, is folding in the whole 64-bit big-endian step number |
| `KeyWrap.FoldIn` | structure/submodule/srt/haicrypt/cryspr.c:196-202 | the in-place form of it |
| `KeyWrap.WrapKey` | structure/submodule/srt/haicrypt/cryspr.c:165-208 | the nested loops compute the wrapping of section 2.2.1 of RFC 3394 in place; other lengths are refused without a write |
| `KeyWrapRfc.WrapIsTrace` | structure/submodule/srt/haicrypt/cryspr.c:165-208 | the wrapped key is the last state of the shift-register trace of section 2.2.1 of RFC 3394: check register eight times 0xA6, one cipher call a step, the big-endian step number folded in by exclusive or |
| `KeyWrapRfc.TraceUnique` | structure/submodule/srt/haicrypt/cryspr.c:165-208 | there is only one such trace, so it determines every wrapped key |
| `KeyWrap.UnwrapKey` | structure/submodule/srt/haicrypt/cryspr.c:210-255 | the backward loops compute section 2.2.2; a failed integrity check wipes the output |
| `OutBuffer.PaddedLenExact` | structure/submodule/srt/haicrypt/hcrypt_msg.h:73 | the smallest multiple of the cipher block that holds the length |
| `OutBuffer.CircleBuffer.constructor` | structure/submodule/srt/haicrypt/cryspr.c:270-306 | room for six padded messages, empty |
| `OutBuffer.CircleBuffer.GetOutbuf` | structure/submodule/srt/haicrypt/cryspr.c:257-268 | where a request is placed and the new offset; the buffer stays within its size if and only if the request is no longer than the buffer |
| `OutBuffer.Inside` | structure/submodule/srt/haicrypt/cryspr.c:257-268 | every region handed out lies inside the buffer |
| `OutBuffer.FiveDisjoint` | structure/submodule/srt/haicrypt/cryspr.c:257-268 | any five consecutive regions are pairwise disjoint, across wraparounds |
| `OutBuffer.DisjointIff` | structure/submodule/srt/haicrypt/cryspr.c:257-268 | in a buffer of any size, `m` consecutive regions stay pairwise disjoint for all requests of at most `q` bytes if and only if `m + 1` requests of `q` exceed the buffer by at most a byte |
| `OutBuffer.SixDisjointIff` | structure/submodule/srt/haicrypt/cryspr.c:257-268 | so with room for six messages, six regions stay disjoint if and only if seven times `q` is at most one more than the buffer |
| `KeyMaterial.FallbackIsSound` | structure/submodule/srt/haicrypt/cryspr.c:165-255 | the fallback key wrap is a lawful one for the message and rotation theorems, over any permutation of blocks: unwrapping undoes wrapping and accepts nothing else |
| `KeyMaterial.ResetCache` | structure/submodule/srt/haicrypt/hcrypt_xpt_srt.c:89-104 | version, type, signature and key flags, nothing else written |
| `KeyMaterial.FillHeader` | structure/submodule/srt/haicrypt/hcrypt_ctx_tx.c:297-306 | the fixed part of the message, reserved bytes zero |
| `KeyMaterial.AsmKM` | structure/submodule/srt/haicrypt/hcrypt_ctx_tx.c:276-332 | the assembled message: header, salt, and the wrapped keys with the even one first |
| `KeyMaterial.KmAcceptable` | structure/submodule/srt/haicrypt/hcrypt_ctx_rx.c:71-142 | an assembled message passes every check, for each key length, parity, mode and number of keys, and its parts are found where the receiver looks |
| `KeyMaterial.KmRoundTrip` | structure/submodule/srt/haicrypt/hcrypt_ctx_rx.c:57-229 | parsing an assembled message succeeds under the same secret and mode, whichever context was used last, and puts each key and the salt into the context of its parity; one key leaves the other context alone |
| `KeyMaterial.KmInjective` | structure/submodule/srt/haicrypt/hcrypt_ctx_tx.c:276-332 | equal messages of one session carry equal keys |
| `KeyMaterial.AcceptedIsWrapped` | structure/submodule/srt/haicrypt/hcrypt_ctx_rx.c:57-229 | whatever the bytes, a message is accepted only if its tail is the wrapping of the keys stored; a refused one changes no key |
| `KeyMaterialExact.KekIs` | structure/submodule/srt/haicrypt/hcrypt_sa.c:64-95 | the key-encrypting key is PBKDF2 with 2048 iterations over the last 64 bits of the salt |
| `KeyMaterialExact.SameKekIff` | structure/submodule/srt/haicrypt/hcrypt_sa.c:64-95 | whatever PBKDF2 is, two derivations agree exactly when passphrase, last 64 salt bits and key length do |
| `KeyMaterialExact.KmLayout` | structure/submodule/srt/haicrypt/hcrypt_ctx_tx.c:276-332 | every byte of an assembled message in front of the wrapped keys, and what is wrapped |
| `KeyMaterialExact.ClassifyExact` | structure/submodule/srt/haicrypt/hcrypt_xpt_srt.c:113-154 | which bytes make a message Keying Material, a data packet with one key flag, or neither |
| `KeyMaterialExact.AcceptableBytes` | structure/submodule/srt/haicrypt/hcrypt_ctx_rx.c:57-157 | the checks before any state changes, as a condition on the bytes |
| `KeyMaterialExact.AcceptedIff` | structure/submodule/srt/haicrypt/hcrypt_ctx_rx.c:57-229 | a message is accepted if and only if it passes the checks, has the cipher of the context, and its tail is a wrapping under the key-encrypting key, derived anew if salt or length is new; each other answer exactly for its reason |
| `KeyMaterialExact.AcceptedFills` | structure/submodule/srt/haicrypt/hcrypt_ctx_rx.c:145-229 | after acceptance each context the message has a key for is keyed, with salt, length and cached message; the other is untouched |
| `KeyMaterialExact.RefusedLeaves` | structure/submodule/srt/haicrypt/hcrypt_ctx_rx.c:57-229 | what a refused message leaves behind: nothing, or its salt and length in the context it was checked against, and the key-encrypting key if one was derived |
| `KeyMaterial.RxSession.constructor` | structure/submodule/srt/haicrypt/hcrypt_ctx_rx.c:25-39 | both contexts configured, without a key |
| `KeyMaterial.RxSession.GenSecret` | structure/submodule/srt/haicrypt/hcrypt_sa.c:64-95 | the key-encrypting key from the password, the last 64 bits of the salt and the key length |
| `KeyMaterial.RxSession.Check` | structure/submodule/srt/haicrypt/hcrypt_ctx_rx.c:71-142 | accepts exactly the acceptable messages |
| `KeyMaterial.RxSession.ParseKM` | structure/submodule/srt/haicrypt/hcrypt_ctx_rx.c:57-229 | the whole new state and return code of the parser, error paths included |
| `KeyMaterial.RxSession.ProcessKM` | structure/submodule/srt/haicrypt/hcrypt_rx.c:116-132 | a message equal to the one cached in the even context is skipped, any other is parsed |
| `KeyMaterial.RxSession.RxData` | structure/submodule/srt/haicrypt/hcrypt_rx.c:26-62 | the context of the packet's parity becomes current and decrypts if it has a key |
| `KeyRotation.TxSession.constructor` | structure/submodule/srt/haicrypt/hcrypt.c:153-167 | the encoder's first state: even context keyed, active, announced and due |
| `KeyRotation.TxSession.DoRefresh` | structure/submodule/srt/haicrypt/hcrypt_ctx_tx.c:172-221 | the other context gets salt, new key, zero counter, and a message with both keys |
| `KeyRotation.TxSession.DoPreSwitch` | structure/submodule/srt/haicrypt/hcrypt_ctx_tx.c:227-243 | announces the other context at once, and stops announcing the current one if its key is included |
| `KeyRotation.TxSession.DoSwitch` | structure/submodule/srt/haicrypt/hcrypt_ctx_tx.c:245-257 | the other context becomes active and current, the old one deprecated |
| `KeyRotation.TxSession.DoPostSwitch` | structure/submodule/srt/haicrypt/hcrypt_ctx_tx.c:259-273 | decommissions the old context and rebuilds a two-key message |
| `KeyRotation.TxSession.DoRotate` | structure/submodule/srt/haicrypt/hcrypt_ctx_tx.c:334-380 | picks the right transition; every state assertion of the code holds |
| `KeyRotation.TxSession.DoManageKM` | structure/submodule/srt/haicrypt/hcrypt_ctx_tx.c:334-395 | the transitions followed by the announcement timer |
| `KeyRotation.TxSession.InjectKM` | structure/submodule/srt/haicrypt/hcrypt_ctx_tx.c:397-420 | sends the messages that are due, in context order, and clears the marks |
| `KeyRotation.TxSession.ManageKeys` | structure/submodule/srt/haicrypt/hcrypt_tx.c:55-80 | the current context is active afterwards, as the code asserts |
| `KeyRotation.TxSession.Data` | structure/submodule/srt/haicrypt/hcrypt_tx.c:95-130 | the packet goes out under the current key and is counted, with 32-bit wraparound |
| `KeyRotation.TxSession.Step` | structure/submodule/srt/haicrypt/hcrypt_tx.c:55-130 | one sender step keeps the invariant |
| `KeyRotation.SwitchStep` | structure/submodule/srt/haicrypt/hcrypt_ctx_tx.c:344-353 | a switch happens at the end of the period only, and lands on a freshly keyed context; its message goes out exactly when the timer says so |
| `KeyRotation.RefreshStep` | structure/submodule/srt/haicrypt/hcrypt_ctx_tx.c:355-367 | a refresh keys the other context and emits its message in the same step |
| `KeyRotation.PlainStep` | structure/submodule/srt/haicrypt/hcrypt_ctx_tx.c:369-392 | every other step keeps both keys and the current context; the announced message is sent exactly when the timer or the first packet asks for it, and no other is |
| `KeyRotation.StepKeepsInv` | structure/submodule/srt/haicrypt/hcrypt_ctx_tx.c:334-420 | every step keeps the invariant |
| `KeyRotation.Safe` | structure/submodule/srt/haicrypt/hcrypt_ctx_tx.c:172-273 | exactly one context is active and it is the current one, exactly one is announced, the key in use is inside the announced message, and the packet counter fits its 32 bits |
| `KeyAgreement.ParseDelivers` | structure/submodule/srt/haicrypt/hcrypt_ctx_rx.c:57-229 | a parsed message leaves exactly its keys in the slots |
| `KeyAgreement.SkipDelivers` | structure/submodule/srt/haicrypt/hcrypt_rx.c:116-132 | skipping a message that equals the cached one is harmless: its keys are in the slots already |
| `KeyAgreement.SendKeeps` | structure/submodule/srt/haicrypt/hcrypt_tx.c:55-130 | a sender step with delivery of its message keeps the invariant of both parties |
| `KeyAgreement.ArriveKeeps` | structure/submodule/srt/haicrypt/hcrypt_rx.c:26-62 | so does the arrival of any packet sent so far |
| `KeyAgreement.RunExtends` | structure/submodule/srt/haicrypt/hcrypt_tx.c:55-130 | runs never get stuck: every event a party may issue next makes a longer run |
| `KeyAgreement.RunKeeps` | structure/submodule/srt/haicrypt/hcrypt_ctx_tx.c:172-420 | and so does every run |
| `KeyAgreement.PacketsPerKey` | structure/submodule/srt/haicrypt/hcrypt_ctx_tx.c:344-353 | over every run at most `refresh + 1` packets are sent under one key; once its successor is in use, exactly `refresh` under the first key and `refresh + 1` under every other |
| `KeyAgreement.PacketKey` | structure/submodule/srt/haicrypt/hcrypt_tx.c:95-130 | over every run, packet `n` is encrypted with the key whose turn it is by its number alone, under that key's parity |
| `KeyAgreement.AnnouncedAhead` | structure/submodule/srt/haicrypt/hcrypt_ctx_tx.c:355-367 | over every run, a key is generated and its message emitted exactly `pre` packets before the first packet it encrypts |
| `KeyAgreement.AgreementIff` | structure/submodule/srt/haicrypt/hcrypt_ctx_rx.c:57-229 | over every run, a packet finds its own key in the receiver's slot of its parity if, and with all keys distinct only if, the message announcing the key two turns later has not been emitted |
| `KeyAgreement.Agreement` | structure/submodule/srt/haicrypt/hcrypt_rx.c:26-62 | hence a packet overtaken by up to `refresh - pre + 1` later packets is decrypted with the key it was encrypted with |
| `KeyAgreement.BoundIsTight` | structure/submodule/srt/haicrypt/hcrypt_rx.c:26-62 | one more overtaking packet is too many for the last packet of a key |
| `FileFraming.SendFile` | structure/SRTdatacontroller/file-send.cpp:37-72 | the loop over one reused buffer sends exactly the segments of the file |
| `FileFraming.ReceiveFiles` | structure/SRTdatacontroller/file-receive.cpp:70-131 | the loop rebuilds files as the specification does: truncate on a first segment, append to the open file, close on the end flag |
| `FileFraming.SegmentRead` | structure/SRTdatacontroller/file-receive.cpp:76-85 | flag byte, name and data of a segment, and that they are read back as they were written |
| `FileFraming.EofExactly` | structure/SRTdatacontroller/file-send.cpp:39-66 | the end flag is only ever on the last segment, and it is missing exactly when the file fills its segments to the last byte |
| `FileFraming.SegmentsFill` | structure/SRTdatacontroller/file-send.cpp:37-72 | every segment but the last fills the buffer, each carries data, and only the first of a file has a name; an empty file has none |
| `FileFraming.TransferIsCopy` | structure/SRTdatacontroller/file-receive.cpp:70-131 | sending any sequence of files and receiving the segments copies every non-empty file in turn, whatever was open or on disk before |
| `FileFraming.RoundTrip` | structure/SRTdatacontroller/file-receive.cpp:70-131 | non-empty files with distinct zero-free names arrive byte for byte, and no other file changes |

## Left out

- TSBPD: timestamps, drift and delivery times are not modelled; the buffer is taken with TSBPD disabled.
- Byte and packet totals and averages of the receiver buffer: drops do not update them in the code, so no exact total
  could be claimed. Rate estimation and statistics of both buffers are left out for the same reason.
- The out fields of the message control block (source time, packet number) that `readMessage` fills in, and logging.
- Locks and threads: each call is one step.
- ReceiverBuffer.RcvBuffer.DropMessage: the range must start inside the buffer and must not be reversed.
- ReceiverBuffer.RcvBuffer.DropAll: the buffer is shorter than the sequence range, as the constructor asserts.
- ReceiverBuffer.RcvBuffer.ReadBufferTo: a notch past the end of the first packet is excluded; the code would copy a
  negative number of bytes there. ReceiverStream.LostBytesRun shows how it comes about.
- ReceiverCursor.CursorIsScan: a `dropUpTo` that cuts a readable message in two is left out; the cursor then stands on
  its remainder, as ReceiverDelivery.CutKeepsChainIff says.
- EndToEnd.Fidelity: messages flagged for delivery in order and no drops; the mixture of both kinds, with
  drops, is covered by EndToEnd.EveryReadIsSubmitted and EndToEnd.NoneReadTwice.
- ReceiverDelivery.EveryReadIsMessage: a `dropUpTo` into the middle of a message is left out; what is read then is the
  rest of that message.
- ReceiverRuns.AtMostOnce: sequence numbers are the unbounded ones; ReceiverBuffer.LocateExact says when the 31-bit
  number in a packet determines them.
- EndToEnd.ExpiredIsDropped: the receiver's buffer has no more slots than there are message numbers, about 67 million.
- SenderRuns.StepHolding: messages are not empty, as `structure/submodule/srt/srtcore/core.cpp` refuses those before
  they reach the buffer, and carry the internally managed message number.
- SenderBuffer.SndBuffer.ReadDataAt: the ring has fewer blocks than there are sequence numbers. The current time is a
  parameter, read once per call, and time is counted in milliseconds.
- `addBufferFromFile`: file-stream input, with a block count that is advanced even on an early end of file.
- KeyWrap.UnwrapKey: inputs of at least 8 bytes; below that the length subtraction of the code wraps around. Input and
  output do not overlap.
- KeyMaterial.Classify and the cache index read the flags of the packet header in the byte order of a little-endian host.
- AES, PBKDF2 and GCM: parameters. AES is any permutation of blocks with its inverse, PBKDF2 any function, and a
  crypto library may bring its own key wrap as long as it is lawful in the sense of KeyMaterial.Lawful. Random bytes
  are parameters too. Failures of the crypto library and of memory allocation are not modelled.
- KeyAgreement.Agreement: refresh rate and pre-announcement satisfy `1 <= pre` and `2 * pre < refresh`, and each Keying
  Material message is delivered when it is emitted.
- `HaiCrypt_Tx_Process`, which keeps using the context it read before key management, and `HaiCrypt_Clone`.
- FileFraming.SendFile: the name with its header leaves room for data, every write to the socket succeeds, and nobody
  asks to stop. Creation of folders and failures to open a file are left out.
- Sockets, groups, routing, option parsing and the other tools of the repository: input and output around libraries
  that are not part of this model.
