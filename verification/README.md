# Models of netty-lib's buffers, framed writer, socket pool and Unicode converters

This project models, in Dafny, four parts of netty-lib whose correctness depends on state kept over whole
runs, and proves what they promise.

**UDT send and receive buffers** (`src/udt/newlib/buffer.cpp`, `buffer.hpp`). `UdtSender` has the circular
list of blocks with its three cursors as a class over heap-allocated blocks; it grows in place and cuts user
data into packets whose message number carries the first/last/order bits (draft-gg-udt, section 2), and gives up
messages whose time to live is over; `UdtNumbers` follows the numbers in all its blocks, held or left behind.
`UdtReceiver` has the ring of slots over shared units, with start and acknowledgement positions, a furthest
offset, a notch and the two-pass message scanner. Both classes are proved against value-level views:
`UdtSender.Sender` is a FIFO of packets, `UdtWindow.Window` is the ring unrolled from its start position.
`UdtTransfer` joins the two, numbering packets as `src/udt/newlib/core.cpp` does, with a network that loses, repeats
and reorders packets, acknowledgements and drop requests, and a sender that may give up any message.
`UdtStreamMode` and `UdtMessageMode` prove what the reader gets in every reachable state, `UdtProgress` and
`UdtMessageProgress` that all of it can still be got from there. `UdtOverflow` says exactly when the scanner falls
back to "message larger than the buffer", and that nothing is delivered then; `UdtOversize` says which messages lead
a run there and which can be delivered. `UdtExpiry` has what giving up a message does to the numbers and to other
messages, with runs that show it in `UdtExpiryRuns`.

**Framed writing and reading** (`include/pfs/netty/archive.hpp`, `simple_frame.hpp`, `writer_queue.hpp`,
`simple_input_controller.hpp`, `writer_pool.hpp`, `writer_poller.hpp`, `src/posix/writer_poller.cpp`).
`Archives`, `Framing`, `WriterQueues`, `InputControllers` and `WriterPools` hold the classes; `Pipelines` joins
queue, wire and input controller; `WriterAccounts` has the runs of one account, `WriterTurns` what a turn of sending
does, `WriterBytes` the bytes a run puts on the wire, `WriterChecks` the internal checks and `WriterRates` the rate;
`WriterPoolRuns` has the runs of pool and poller together (wake-ups, and which runs never throw), and
`WriterPoolBytes` shows each of them to be, for every socket, a run of its account.

**Socket pool** (`include/pfs/netty/socket_pool.hpp`). `SocketPools` proves that the slot vector, the index and
the free list act as a map, and counts the slots.

**Unicode converters** (`demo/shared/linenoise-ng/ConvertUTF.cpp`). `Utf` states the encoding forms of RFC 3629
(sections 3 and 4) and RFC 2781 (section 2) and what one character's check and decoding do; `UtfConvert` has what
the six loops compute and their laws, `UtfEndings` how a strict call ends and `UtfLenient` what a lenient one does;
`UtfLoops` has the loops themselves, writing into arrays.

Clock readings, the answers of `send` and `locate_socket`, the readiness the operating system reports, and the
iteration order of hash maps are parameters. Each method is one atomic step.

Results that go against the code's own words:

- The comment at `src/udt/newlib/buffer.cpp:653` says that part of an over-long message is returned; `readMsg`
  copies nothing there and leaves the buffer as it was, so calling it again does the same
  (`UdtOverflow.OverflowDeliversNothing`; `UdtOverflow.OverflowIff` says when). Runs do get there: every message of
  as many packets as the buffer has slots leads one there (`UdtOversize.OversizeOverflows`), and exactly the
  messages of fewer packets can be delivered (`UdtOversize.CanDeliverIff`). `sendmsg` refuses messages of more
  packets than the sender's buffer limit (core.cpp:1150), so they get there only when that limit is not below the
  receiver's buffer size.
- The code that gives up an expired message calls it "skip all dropped packets" (core.cpp:2200-2202), but moves the
  number of the next packet one too far. The numbers stay in step with the packets exactly when at least two packets
  behind the message have been sent before (`UdtTransfer.ExpireInStepIff`; `InStepIff` over whole runs). When they
  do not, a message can be delivered twice and out of order (`UdtExpiryRuns.NumbersAhead`); when they do, messages are
  delivered whole and at most once (`UdtMessageMode.MessageDelivery`).
- The drop request sent with it names one packet too many, the first of the next message, so that a message nobody
  gave up can be lost (`UdtExpiryRuns.NeighbourLost`), and an ordered one overtake it. Nothing is lost but what a
  request names (`UdtExpiry.GoneIsNamed`, `UdtMessageMode.OrderedDelivery`), and without expiry nothing at all
  (`UdtExpiry.AllDelivered`).
- `dropMsg` compares the message number with the whole word, flag bits included (buffer.cpp:499), so it strikes out
  only middle packets of unordered messages (`UdtReceiver.RcvBuffer.DropMsg`).
- The internal checks of `do_send` hold over all runs of a new account exactly when it has no rate limit, or a
  rate that is zero or not below the frame size (`WriterChecks.ChecksFailIff`); `WriterChecks.FiresIff` has the
  condition for an account in any state, and `WriterChecks.ResizeFiresIff` for a frame size set in mid-run.
- A burst of rate + frame size - 1 bytes bounds each accounting period, but every second only when the rate is
  zero: with any other rate two bursts can lie ten milliseconds apart (`WriterRates.ExceedsIff`). `AnyInterval`
  and `RateBound` give the bounds that hold.
- A writer loses its wake-up for good when two steps are 500 ms or more apart, whatever the gap
  (`WriterPoolRuns.GapIff`, `LostForever`), or when a socket is added again while the poller is about to drop it:
  the next step loses it, whatever it brings (`AddKeepsIff`, `AddedIsLost`), and runs get there (`ReaddedLoses`).
- Adding a socket under an id already mapped leaks a slot, and only that does (`SocketPools.AddedLeaksIff`);
  lookups stay right even so (`RunRefines`).
- The header of the converters promises that an illegal sequence stops a strict conversion and that the source
  then points at it. Converting from UTF-32, that holds exactly when the first illegal value is a surrogate
  (`UtfConvert.StopsIff32To16`, `StopsIff32To8`): a value above 0x10FFFF is passed over, with nothing written
  towards UTF-16 and a replacement character towards UTF-8 (`PastTheLastPlane`). From UTF-16 and UTF-8 it always
  holds, of what the code takes for illegal (`UtfEndings.EndsIff16`, `EndsIff8`).
- `isLegalUTF8` accepts exactly the well-formed sequences and those led by ED or F4 whose second byte is below 80
  (`Utf.LegalIff`); those decode to a character they do not encode (`Utf.LegalDecodes`, `UtfConvert.SlippedExample`).

`dafny verify dfyconfig.toml` verifies the whole project.

## Model

| member | source | states |
|---|---|---|
| UdtPackets.MsgWordFields | src/udt/newlib/packet.cpp:328-344 | The boundary, order and sequence fields of a message number read back exactly what addBuffer wrote into it |
| UdtPackets.KnownWords | src/udt/newlib/buffer.cpp:147-153 | Which bits of the word are which: first 0x80000000, last 0x40000000, order 0x20000000 |
| UdtPackets.BareWordIff | src/udt/newlib/buffer.cpp:499 | The word equals the bare message number exactly for a middle packet of an unordered message, the only kind dropMsg can meet |
| UdtPackets.NextMsgNoInRange | src/udt/newlib/buffer.cpp:163-165 | The message number stays in 1..0x1FFFFFFE, wrapping to 1, so it never spills into the flag bits |
| UdtNumbers.NoAtDiffers | src/udt/newlib/buffer.cpp:163-165 | A message number comes again only after all 0x1FFFFFFE numbers have been used |
| UdtPackets.ChopIsMessage | src/udt/newlib/buffer.cpp:136-156 | The packets of a message carry its bytes in order; only the first is marked first, only the last is marked last, all carry its order flag and number |
| UdtPackets.ChopAt | src/udt/newlib/buffer.cpp:136-156 | Packet i holds bytes i*MSS up to the next MSS bytes or the end of the data |
| UdtPackets.ChopLength | src/udt/newlib/buffer.cpp:122-125 | The number of packets is the length divided by MSS, rounded up |
| UdtPackets.ChopFilled | src/udt/newlib/buffer.cpp:136-156 | No packet of a message is empty |
| UdtSender.NewChain | src/udt/newlib/buffer.cpp:58-84 | Blocks linked in a row over one new buffer, no two blocks sharing memory |
| UdtSender.Splice | src/udt/newlib/buffer.cpp:334-336 | Splicing a chain in after a block of a linked ring gives a linked ring, the old blocks in their old order |
| UdtSender.SpliceDisjoint | src/udt/newlib/buffer.cpp:327-345 | The spliced ring still has no two blocks that are equal or share memory |
| UdtNumbers.SpareDiffers | src/udt/newlib/buffer.cpp:252-255 | However many messages there have been, the block behind the last one does not carry its number, as long as there are fewer blocks and empty messages than numbers, and blocks never written count as number 0, which the source leaves unset when the ring grows |
| UdtNumbers.WrittenNumbered | src/udt/newlib/buffer.cpp:131-165 | Writing a message keeps the account of which message each block was last written for |
| UdtNumbers.GrownNumbered | src/udt/newlib/buffer.cpp:334-336 | So does growing the ring, by blocks of number 0; the source leaves their number unset |
| UdtNumbers.TurnedNumbered | src/udt/newlib/buffer.cpp:274-284 | So does acknowledging |
| UdtSender.SndBuffer.constructor | src/udt/newlib/buffer.cpp:46-92 | A new buffer is a well-formed ring of the given size, empty, with message number 1 |
| UdtSender.SndBuffer.Increase | src/udt/newlib/buffer.cpp:291-348 | Growing keeps the packets held, the cursors' meaning and the ring; the size grows by one unit |
| UdtSender.SndBuffer.Reserve | src/udt/newlib/buffer.cpp:127-129 | The growing loop ends, with room for the new packets and one block to spare |
| UdtSender.SndBuffer.AddBuffer | src/udt/newlib/buffer.cpp:120-166 | The packets of the message are appended to those held, with its ttl and time; nothing unacknowledged is overwritten, for any data and any fill level |
| UdtSender.SndBuffer.ReadData | src/udt/newlib/buffer.cpp:223-236 | Hands out each packet once, in order, with its message number; length 0 exactly when all have been handed out |
| UdtSender.SndBuffer.ReadDataAt | src/udt/newlib/buffer.cpp:238-272 | Retransmission by offset gives the bytes and message number of that unacknowledged packet; when its message has expired, -1, the number, how many packets of it follow, and the sending position is moved to its end if it was inside |
| UdtSender.ExpiredIff | src/udt/newlib/buffer.cpp:247 | As long as the clock has not wrapped since, a packet with a ttl of t >= 0 milliseconds is given up exactly when (t + 1) * 1000 microseconds or more have passed, and one with a negative ttl never |
| UdtSender.SndBuffer.ExpiredRun | src/udt/newlib/buffer.cpp:247-265 | The walk over an expired message ends within the packets held or at the spare block, never behind it, if blocks never written have number 0 (see Left out) |
| UdtSender.SndBuffer.Walk | src/udt/newlib/buffer.cpp:252-263 | The loop counts the blocks of that number and takes the current block along exactly when it passes it |
| UdtSender.SndBuffer.AckData | src/udt/newlib/buffer.cpp:274-284 | Removes exactly the acknowledged packets from the front; the rest and the sending position keep their meaning |
| UdtReceiver.RcvBuffer.constructor | src/udt/newlib/buffer.cpp:352-364 | A new receiving buffer is an empty window at position 0, holding no unit |
| UdtReceiver.RcvBuffer.GetRcvDataSize | src/udt/newlib/buffer.cpp:488-494 | The distance from start to acknowledgement position round the ring is the number of acknowledged packets kept |
| UdtReceiver.RcvBuffer.GetAvailBufSize | src/udt/newlib/buffer.cpp:482-486 | The free window, one slot always staying empty |
| UdtReceiver.RcvBuffer.AddData | src/udt/newlib/buffer.cpp:380-395 | Puts this unit into its place in the window; -1 exactly when that place is taken, and then the unit there stays; the unit's flag, the queue's count and the accounting of units follow |
| UdtReceiver.RcvBuffer.AckData | src/udt/newlib/buffer.cpp:472-480 | Moves the acknowledgement position and nothing else: the same units are held and accounted for |
| UdtReceiver.RcvBuffer.ReadBuffer | src/udt/newlib/buffer.cpp:397-431 | The bytes copied and the window left are those of the stream read specified by ReadTakesPrefix; units let go have flag 0 and the queue's count follows, and of all units given exactly those not held have flag 0 |
| UdtReceiver.RcvBuffer.ScanMsg | src/udt/newlib/buffer.cpp:553-659 | Both passes over the ring find what the scan of the unrolled window finds; units freed on the way have flag 0, are no longer counted, and the accounting of units is kept |
| UdtReceiver.RcvBuffer.ReadMsg | src/udt/newlib/buffer.cpp:503-544 | Copies the first len bytes of the message found and frees it, or marks its packets read when it is not acknowledged yet; the accounting of units is kept |
| UdtReceiver.RcvBuffer.DropMsg | src/udt/newlib/buffer.cpp:496-501 | Flags as dropped exactly the packets held, the furthest one excepted, whose whole number word is the one given; nothing is freed and the accounting of units is kept |
| UdtScan.DropMsgIff | src/udt/newlib/buffer.cpp:496-501 | Afterwards a packet can be read exactly when it could before and its word is not the one given or it is the furthest one; no packet is taken out or changed |
| UdtReceiver.RcvBuffer.NotHeld | src/udt/newlib/buffer.cpp:380-395 | A unit with flag 0 sits in no slot |
| UdtReceiver.RcvBuffer.TallyKept | src/udt/newlib/buffer.cpp:397-544 | Letting units go keeps the accounting: of the units given to the buffer exactly those it does not hold have flag 0 |
| UdtWindow.ReadTakesPrefix | src/udt/newlib/buffer.cpp:397-431 | A read returns exactly the first min(len, available) bytes of the unread stream and leaves the stream without them, whatever packets and notches it crosses |
| UdtWindow.ReadShifts | src/udt/newlib/buffer.cpp:410-428 | A read only moves the start position; every other packet keeps its place |
| UdtWindow.AddDataValid | src/udt/newlib/buffer.cpp:380-395 | Storing inside the free window keeps the invariant: nothing beyond the furthest offset, the last slot empty |
| UdtScan.FindSound | src/udt/newlib/buffer.cpp:602-648 | What the second pass finds is one whole message: every packet present and unread, from a first packet to the first last packet, acknowledged or out-of-order deliverable |
| UdtScan.FindComplete | src/udt/newlib/buffer.cpp:602-648 | No deliverable message is passed over: the pass stops at or before the end of each |
| UdtScan.FoundAtFront | src/udt/newlib/buffer.cpp:559-600 | After the first pass an acknowledged message that is found starts at the start position, so freeing up to its end skips nothing |
| UdtScan.ScanFinds | src/udt/newlib/buffer.cpp:553-659 | scanMsg as a whole finds only whole, unread, deliverable messages |
| UdtScan.ScanMoves | src/udt/newlib/buffer.cpp:559-600 | The first pass only drops slots from the front; the rest keeps its place and the window stays valid |
| UdtOverflow.OverflowIff | src/udt/newlib/buffer.cpp:650-656 | The fallback is taken exactly when all slots but the spare one hold a single message from the start position on that has not ended or may not be handed out |
| UdtOverflow.OverflowDeliversNothing | src/udt/newlib/buffer.cpp:503-544 | After the fallback readMsg returns no byte and changes nothing, and a further scan gives the same |
| UdtOversize.OversizeOverflows | src/udt/newlib/buffer.cpp:650-656 | For every buffer of three slots or more and every message of at least as many packets a run of sender, network and receiver takes the fallback |
| UdtOversize.DeliveredFits | src/udt/newlib/buffer.cpp:553-659 | Over every run numbered as cut a message delivered has fewer packets than the buffer has slots |
| UdtOversize.CanDeliverIff | src/udt/newlib/buffer.cpp:503-659 | Some run numbered as cut delivers a lone message whole exactly when it has a packet, and fewer than the buffer has slots |
| UdtTransfer.StepInv | src/udt/newlib/core.cpp:2179-2301 | Every step of sender, network and receiver in which an expiry is clear keeps: slots hold the packet of their number, the acknowledgement points are ordered, the next number follows the last packet sent, what is unacknowledged is still held, and an acknowledged slot is empty only if its packet was named in a drop request |
| UdtTransfer.ArrivedReceives | src/udt/newlib/core.cpp:2296-2301 | A packet that arrives, in its place or not, repeated or out of the window, leaves a window that holds the packets of the log at their numbers |
| UdtTransfer.AckArrivesInv | src/udt/newlib/core.cpp:1922-1931 | A late or repeated acknowledgement does no harm; a new one frees only packets the receiver has |
| UdtTransfer.ExpireInv | src/udt/newlib/core.cpp:2190-2204 | A clear expiry leaves the sender as it was and keeps all this; it only asks the receiver to drop the message |
| UdtTransfer.ExpireInStepIff | src/udt/newlib/core.cpp:2192-2202 | An expiry keeps the next number in step with the packets cut exactly when at least two packets behind the message have been sent |
| UdtTransfer.AheadStays | src/udt/newlib/core.cpp:2192-2219 | The numbers never fall behind the packets, and once ahead they stay ahead |
| UdtTransfer.InStepIff | src/udt/newlib/core.cpp:2192-2219 | A run ends numbered as cut exactly when every expiry in it came when two packets behind the message had been sent |
| UdtTransfer.DropInv | src/udt/newlib/core.cpp:2132-2142 | A drop request that arrives keeps the invariant, whatever of its message the receiver holds |
| UdtStreamMode.StreamDelivery | src/udt/newlib/buffer.cpp:120-431 | In every reachable state of stream mode the bytes read are a prefix of the bytes given to addBuffer, and read bytes plus readable bytes are exactly the acknowledged ones |
| UdtStreamMode.StreamGrows | src/udt/newlib/buffer.cpp:472-480 | Acknowledging more packets makes exactly their bytes readable |
| UdtMessageMode.MessageDelivery | src/udt/newlib/buffer.cpp:503-659 | In every reachable state of message mode numbered as cut each delivery is the first len bytes of one message given to addBuffer, none is delivered twice, and no packet leaves the window undelivered unless its message has lost a packet to a drop request |
| UdtMessageMode.OrderedDelivery | src/udt/newlib/buffer.cpp:633-639 | There an ordered message is delivered only after every message sent before it, except those that have lost a packet to a drop request |
| UdtMessageMode.WholeIsMessage | src/udt/newlib/buffer.cpp:136-156 | A row of packets from a first to the next last one is exactly one message of those sent |
| UdtExpiry.EndOfMessage | src/udt/newlib/buffer.cpp:249-263 | From any packet of a message the run of its number ends where the message ends |
| UdtExpiry.ExpirySkipsMessage | src/udt/newlib/buffer.cpp:238-265 | In every reachable state numbered as cut, with no empty message sent, giving up a message moves the sending position to its end if it is inside, and otherwise not at all; the next number is at least two behind that end, and the drop request reaches to the first packet behind it |
| UdtExpiry.GoneIsNamed | src/udt/newlib/core.cpp:2132-2142 | Over every run numbered as cut the packets the receiver no longer waits for, or has struck out, are those drop requests named |
| UdtExpiry.AllDelivered | src/udt/newlib/core.cpp:2179-2219 | Over every run without expiry the packets are numbered as cut, none is gone, and none leaves the window undelivered |
| UdtExpiryRuns.NumbersAhead | src/udt/newlib/core.cpp:2200-2202 | A run that delivers C, B, C for three messages A, B, C, ordered or not, and acknowledges five packets where the sender has three |
| UdtExpiryRuns.NeighbourLost | src/udt/newlib/core.cpp:2194-2198 | A run numbered as cut in which A is given up, B is lost for good, and C is delivered, ordered or not |
| UdtProgress.CanCompleteIff | src/udt/newlib/buffer.cpp:380-431 | From every reachable state of stream mode, whatever has been lost, everything given can still be read exactly when the receiving buffer has two slots or more, or nothing has been given |
| UdtMessageProgress.CanDeliverAllIff | src/udt/newlib/buffer.cpp:503-659 | From every reachable state of message mode in which no packet is gone, every message can still be delivered exactly when each has fewer packets than the receiving buffer has slots |
| Archives.Archive.EraseFront | include/pfs/netty/archive.hpp:161-178 | Erases exactly n bytes, or fails and changes nothing when there are fewer |
| Archives.Archive.Append | include/pfs/netty/archive.hpp:135-153 | Appends behind the contents, whatever has been erased in front |
| Archives.Archive.Resize | include/pfs/netty/archive.hpp:180-183 | Cuts or extends the contents, not the erased front |
| Archives.Archive.CopyAt | include/pfs/netty/archive.hpp:188-191 | Overwrites the contents from a position on, counted without the erased front |
| Archives.Archive.MoveContainer | include/pfs/netty/archive.hpp:95-100 | Gives away exactly the contents |
| Archives.Archive.Copied | include/pfs/netty/archive.hpp:86-88 | A copy has the contents without the erased front |
| Framing.Pack | include/pfs/netty/simple_frame.hpp:45-60 | Appends one frame of a prefix of the message and erases that prefix, the longest prefix the frame size allows, as Pipelines.Cutting has it without naming the size; the check fails exactly when the frame size leaves no payload |
| Framing.Parse | include/pfs/netty/simple_frame.hpp:62-91 | Takes one complete frame off the front and appends its payload, or finds it incomplete and changes nothing |
| Framing.FrameOnWire | include/pfs/netty/simple_frame.hpp:45-60 | A frame is two bytes with the length of the payload, high byte first, and then the payload |
| Framing.ParseOneIff | include/pfs/netty/simple_frame.hpp:62-91 | A frame is complete exactly when as many bytes follow the two of the header as these say; the payload is those bytes |
| Framing.ParseFrame | include/pfs/netty/simple_frame.hpp:45-91 | Parsing a packed frame followed by anything gives the payload and leaves the rest |
| Framing.ParseSplit | include/pfs/netty/simple_frame.hpp:62-91 | Parsing a stream in two pieces gives the payloads and remainder of parsing it whole |
| Framing.ParseAllInverse | include/pfs/netty/simple_frame.hpp:45-91 | Any byte stream is the frames of the payloads parsed from it, then the remainder |
| Framing.ParseFrameAll | include/pfs/netty/simple_frame.hpp:45-91 | Framing a list of payloads and parsing the stream gives the list back |
| Framing.RestIncomplete | include/pfs/netty/simple_frame.hpp:64-76 | What the parse loop leaves never holds a complete frame |
| WriterQueues.WriterQueue.Enqueue | include/pfs/netty/writer_queue.hpp:43-60 | A non-empty message goes to the end of the queue; an empty one is ignored |
| WriterQueues.WriterQueue.AcquireFrame | include/pfs/netty/writer_queue.hpp:68-89 | Gives the pending frame, or frames the next bytes of the first message and removes them from it; its checks fail exactly when a pending frame exceeds the size or the size leaves no payload |
| WriterQueues.WriterQueue.Shift | include/pfs/netty/writer_queue.hpp:91-101 | Removes the bytes sent from the pending frame; its checks fail exactly for 0 or more than the frame |
| InputControllers.InputController.ProcessInput | include/pfs/netty/simple_input_controller.hpp:48-63 | The loop ends and hands over every complete payload of kept bytes plus chunk, in order, keeping the remainder; other sockets are untouched, and it may be called again: any archive added is its own |
| InputControllers.InputController.Remove | include/pfs/netty/simple_input_controller.hpp:65-68 | Forgets the bytes kept for the socket and no other |
| InputControllers.SplitInvariance | include/pfs/netty/simple_input_controller.hpp:48-94 | Payloads and remainder of a socket depend only on its joined chunks since its last removal, not on their split nor on other sockets |
| InputControllers.KeptIncomplete | include/pfs/netty/simple_input_controller.hpp:55-62 | The bytes kept for a socket never hold a complete frame |
| Pipelines.Conservation | include/pfs/netty/writer_queue.hpp:68-101 | In every reachable state the bytes delivered, in flight and queued are, in order, the bytes enqueued, and no frame mixes two messages |
| Pipelines.Preservation | include/pfs/netty/simple_frame.hpp:45-60 | When every message fits the frame size, the delivered payloads are, one for one, a prefix of the non-empty messages |
| Pipelines.Cutting | include/pfs/netty/simple_frame.hpp:45-60 | Over every run with one frame size F, 3 <= F < 65536, the payloads framed and what is queued are, in order, the messages, each cut into pieces of F - 2 bytes |
| Pipelines.PiecesShape | include/pfs/netty/simple_frame.hpp:45-60 | Every such piece but the last has exactly F - 2 bytes, and a message of n bytes makes n / (F - 2) of them, rounded up |
| Pipelines.StepInv | include/pfs/netty/simple_input_controller.hpp:48-94 | Enqueueing, framing, partial sends and arriving chunks of any size each keep the framing invariant |
| WriterTurns.AsksIff | include/pfs/netty/writer_pool.hpp:388-530 | With a proper frame size a turn calls send exactly when it is due, something is queued or pending, and the rate, if there is one, allows it: any positive rate once the period is over, within it as long as less than the rate has been sent |
| WriterTurns.TurnAnswers | include/pfs/netty/writer_pool.hpp:428-458 | Failure, network and an unknown socket schedule the account for removal, and nothing else does; again and overflow, and nothing else, make it wait; good puts as many bytes on the wire as were taken, and makes a check fail exactly when more than were offered |
| WriterTurns.TurnCounts | include/pfs/netty/writer_pool.hpp:464-530 | A due turn opens a new period exactly when the old one is a second old; what is sent counts in the period it is sent in; nothing else of the account is touched |
| WriterTurns.OneGoes | include/pfs/netty/writer_pool.hpp:472-481 | From every state of an unlimited account that may write and has something queued, a turn sends a non-empty frame whole |
| WriterTurns.AllGoes | include/pfs/netty/writer_pool.hpp:472-481 | From every such state turns at one and the same moment send all that is queued: the pending frame, then each message in as few frames as hold it |
| WriterTurns.ResizedGoes | include/pfs/netty/writer_pool.hpp:191-199 | A frame size set while nothing is pending holds for every frame from then on |
| WriterBytes.AccountCarries | include/pfs/netty/writer_pool.hpp:388-461 | Over every run of an account with honest sends, partial, full or refused, and frame sizes set at any time, the bytes sent and the pending frame are whole frames; their payloads and the queue are, in order, the non-empty messages put, no frame mixing two |
| WriterChecks.FiresIff | include/pfs/netty/writer_pool.hpp:388-530 | From any state of an account some run makes an internal check fail exactly when frames are allowed at all and the frame size leaves no payload, is below the pending frame, or is above a custom rate |
| WriterChecks.ChecksFailIff | include/pfs/netty/writer_pool.hpp:388-461 | For a new account in either fixed mode: exactly when the rate is custom, positive and below the frame size |
| WriterChecks.ResizeFiresIff | include/pfs/netty/writer_pool.hpp:191-199 | Which frame sizes set in mid-run make a later check fail in some run, and that no others do |
| WriterChecks.StepSafe | include/pfs/netty/writer_pool.hpp:388-461 | A turn never meets a pending frame larger than the size allowed, through again, partial and full sends |
| WriterRates.RateBound | include/pfs/netty/writer_pool.hpp:502-530 | A run of T ms sends at most (T/1000 + 1)(R + F - 1) bytes, and no accounting period more than R + F - 1 |
| WriterRates.AnyInterval | include/pfs/netty/writer_pool.hpp:502-530 | From any moment of a run on, at most one burst more than that |
| WriterRates.ExceedsIff | include/pfs/netty/writer_pool.hpp:511-529 | Some run has a stretch of less than a second that sends more than R + F - 1 exactly when the rate is not zero |
| WriterRates.StepLimited | include/pfs/netty/writer_pool.hpp:402-453 | Each turn either stays in the accounting period and counts what it sends, or opens a new one after a full second |
| WriterPools.WriterPool.WaitForWrite | src/posix/poll_poller.cpp:30-56 | Registers a descriptor once |
| WriterPools.WriterPool.PollRemove | src/posix/poll_poller.cpp:58-76 | Unregisters exactly that descriptor |
| WriterPools.WriterPool.ApplyRemovable | include/pfs/netty/writer_poller.hpp:52-59 | Unregisters exactly the descriptors noted for it and forgets the notes |
| WriterPools.WriterPool.ApplyRemove | include/pfs/netty/writer_pool.hpp:210-220 | Drops exactly the accounts scheduled, and their descriptors |
| WriterPools.WriterPool.EnsureAccount | include/pfs/netty/writer_pool.hpp:332-363 | A new account is registered with the poller; an existing one is left alone |
| WriterPools.WriterPool.Enqueue | include/pfs/netty/writer_pool.hpp:222-252 | Queues a non-empty message behind those already queued, adding the account if need be; over runs WriterPoolBytes.SocketCarries |
| WriterPools.WriterPool.CanWrite | include/pfs/netty/writer_pool.hpp:114-126 | Makes a known account writable, 500 ms from now |
| WriterPools.WriterPool.TuneFrameSize | include/pfs/netty/writer_pool.hpp:464-530 | The size allowed now and the account's new accounting, for both fixed modes; WriterTurns.AsksIff and AllGoes say when and what that lets through, TurnCounts the accounting |
| WriterPools.WriterPool.Answer | include/pfs/netty/writer_pool.hpp:428-458 | What each answer of send does to the account, the poller and the removal list, as WriterTurns.TurnAnswers and WriterBytes.AccountCarries have it |
| WriterPools.WriterPool.DoSend | include/pfs/netty/writer_pool.hpp:388-461 | One turn for each account in the container's order, until a check throws |
| WriterPools.WriterPool.Poll | src/posix/writer_poller.cpp:95-170 | Drains the removals first, then runs the callback of every ready descriptor, stopping once as many as were reported have been handled |
| WriterPools.WriterPool.Step | include/pfs/netty/writer_pool.hpp:289-298 | Sends and then polls, leaving the pool as the runs below have it |
| WriterPools.SentAllKeeps | include/pfs/netty/writer_pool.hpp:388-461 | Sending adds no account, registers only accounts and drains nothing |
| WriterPools.IdleReports | src/posix/writer_poller.cpp:108-113 | Once as many descriptors have been handled as were reported, the rest need nothing |
| WriterPoolRuns.SentAllAt | include/pfs/netty/writer_pool.hpp:391-458 | In a round each account gets exactly its own turn, untouched by the others' |
| WriterPoolRuns.ReportedAllAt | src/posix/writer_poller.cpp:108-166 | The callbacks concern only ready descriptors, each once |
| WriterPoolRuns.StepAwakeIff | include/pfs/netty/writer_pool.hpp:289-298 | A step puts an awake account to sleep for good exactly when its socket refuses a frame while the poller is about to drop it |
| WriterPoolRuns.ThrowSkipsPoll | include/pfs/netty/writer_pool.hpp:289-298 | A step that throws does not come to poll: no descriptor is dropped and the notes stay |
| WriterPoolRuns.NoLostWakeUp | include/pfs/netty/writer_pool.hpp:114-298 | Over every run whose sends come less than 500 ms after the last poll and that adds no socket about to be dropped, each account not scheduled for removal is writable, or registered and not about to be dropped |
| WriterPoolRuns.NoLostWakeUpFromStart | include/pfs/netty/writer_pool.hpp:114-298 | The same from the empty pool |
| WriterPoolRuns.AddKeepsIff | include/pfs/netty/writer_pool.hpp:332-363 | Adding a socket keeps that exactly when it has an account, is scheduled for removal, or is not about to be dropped by the poller |
| WriterPoolRuns.AddedIsLost | include/pfs/netty/writer_poller.hpp:52-59 | After an add that does not keep it, the next step that does not throw loses the wake-up, whatever it brings |
| WriterPoolRuns.ReaddedLoses | include/pfs/netty/writer_pool.hpp:201-220 | From the empty pool: found ready, removed, added again before the next poll, and lost |
| WriterPoolRuns.GapIff | include/pfs/netty/writer_pool.hpp:114-126 | With two steps d ms apart and a socket that refuses in the second, the account stays awake exactly when d is below 500 |
| WriterPoolRuns.LostStays | include/pfs/netty/writer_poller.hpp:52-59 | A lost wake-up stays lost in every step but the removal of the account |
| WriterPoolRuns.LostForever | include/pfs/netty/writer_pool.hpp:388-461 | Over whole runs nothing but removing the account ends it |
| WriterPoolRuns.RoundFiresIff | include/pfs/netty/writer_pool.hpp:388-461 | A round throws exactly when the turn of some account in it does |
| WriterPoolRuns.NoThrow | include/pfs/netty/writer_pool.hpp:191-461 | Over every run whose new accounts and frame sizes are not risky and whose sends are honest no check throws, for any number of accounts |
| WriterPoolBytes.EventRefines | include/pfs/netty/writer_pool.hpp:114-461 | Every event of the pool is, for each socket whose account stays or comes, the steps of its account that concern it, and no account comes otherwise |
| WriterPoolBytes.SocketCarries | include/pfs/netty/writer_pool.hpp:222-461 | Over every run from the empty pool, for a socket whose account is not removed, what it has sent with its pending frame is whole frames; their payloads and its queue are, in order, the non-empty data enqueued for it, whatever happens to other sockets |
| WriterPoolBytes.RemovedIff | include/pfs/netty/writer_pool.hpp:388-461 | A step schedules an account for removal exactly when the account calls send and its socket is unknown or answers failure or network, or the poll reports it broken |
| WriterPoolBytes.OnlyAccountsWatched | include/pfs/netty/writer_pool.hpp:210-220 | In every reachable state only sockets that have an account are registered with the poller, so one removed is not until it is added again |
| SocketPools.AddedRefines | include/pfs/netty/socket_pool.hpp:47-58 | Adding maps the id to the new socket and changes no other, whatever the id |
| SocketPools.AddedSlot | include/pfs/netty/socket_pool.hpp:47-58 | The slot taken is the least one free; the vector grows only when none is |
| SocketPools.AppliedRefines | include/pfs/netty/socket_pool.hpp:101-117 | Removing takes exactly the scheduled ids out of the map and keeps all others |
| SocketPools.ClearedOne | include/pfs/netty/socket_pool.hpp:104-113 | Taking the scheduled ids out one after the other, in any order, comes to taking them out at once |
| SocketPools.SoundInjective | include/pfs/netty/socket_pool.hpp:60-79 | No two ids share a slot |
| SocketPools.AddedLeaksIff | include/pfs/netty/socket_pool.hpp:47-58 | Every slot stays either free or mapped exactly when the id added was unmapped |
| SocketPools.AppliedNoLeak | include/pfs/netty/socket_pool.hpp:101-117 | Removing leaks no slot |
| SocketPools.SlotCount | include/pfs/netty/socket_pool.hpp:40-44 | Mapped and free slots add up to the slot vector |
| SocketPools.RunRefines | include/pfs/netty/socket_pool.hpp:47-117 | Every run of the pool is the same run of a map from id to socket and kind |
| SocketPools.LocateRefines | include/pfs/netty/socket_pool.hpp:132-146 | Over all runs locate gives exactly the socket last added under the id, not removed since nor scheduled for it |
| SocketPools.SlotEconomy | include/pfs/netty/socket_pool.hpp:47-117 | Over every run adding only unmapped ids the vector is as long as it was, or as the largest number mapped at one time |
| SocketPools.SlotEconomyFromStart | include/pfs/netty/socket_pool.hpp:47-117 | From the empty pool, exactly the largest number mapped at one time |
| SocketPools.SocketPool.Add | include/pfs/netty/socket_pool.hpp:47-58 | Takes the least free slot, or appends one when there is none, and maps the id to it |
| SocketPools.SocketPool.LocateAccount | include/pfs/netty/socket_pool.hpp:60-79 | Its three internal checks never fail; it finds exactly the mapped account |
| SocketPools.SocketPool.Locate | include/pfs/netty/socket_pool.hpp:132-146 | Nothing for an id scheduled for removal, else what the map has |
| SocketPools.SocketPool.ApplyRemove | include/pfs/netty/socket_pool.hpp:101-117 | Removes exactly the scheduled ids and empties the schedule |
| Utf.LegalIff | demo/shared/linenoise-ng/ConvertUTF.cpp:296-319 | The check accepts exactly the sequences of the RFC 3629 section 4 grammar, and those led by ED or F4 with a second byte below 80 |
| Utf.GrammarIff | demo/shared/linenoise-ng/ConvertUTF.cpp:180-201 | The grammar is exactly the encodings of the scalar values |
| Utf.Utf8RoundTrip | demo/shared/linenoise-ng/ConvertUTF.cpp:175-201 | Every encoded character is well formed, its first byte tells its length, and summing and subtracting the offset modulo 2^32 gives it back |
| Utf.KnownForms | demo/shared/linenoise-ng/ConvertUTF.cpp:180-201 | The UTF-8 examples of RFC 3629 (section 7), the UTF-16 example of RFC 2781 (section 5), and the first and last character of each length |
| Utf.LegalDecodes | demo/shared/linenoise-ng/ConvertUTF.cpp:337-521 | Bytes that pass the check decode to a scalar value, the one they encode exactly when well formed; so the later tests for surrogates and large values never find any |
| Utf.PairBits | demo/shared/linenoise-ng/ConvertUTF.cpp:99-101 | The two halves written for a character are a high and a low surrogate and join to it |
| Utf.UnpairBits | demo/shared/linenoise-ng/ConvertUTF.cpp:124-130 | Joining any surrogate pair gives the scalar value whose halves it is |
| UtfConvert.ConvertsChars | demo/shared/linenoise-ng/ConvertUTF.cpp:62-521 | On well-formed input and for any capacity a converter takes as many whole characters as fit and writes exactly them |
| UtfConvert.FitIsMost | demo/shared/linenoise-ng/ConvertUTF.cpp:265-269 | Those characters fit the target and one more would not |
| UtfConvert.Recodes32To16 | demo/shared/linenoise-ng/ConvertUTF.cpp:62-107 | ConvertUTF32toUTF16 takes and writes one character at a time, in either mode |
| UtfConvert.Recodes32To8 | demo/shared/linenoise-ng/ConvertUTF.cpp:410-459 | ConvertUTF32toUTF8 likewise |
| UtfConvert.Recodes16To32 | demo/shared/linenoise-ng/ConvertUTF.cpp:111-164 | ConvertUTF16toUTF32 likewise |
| UtfConvert.Recodes16To8 | demo/shared/linenoise-ng/ConvertUTF.cpp:215-281 | ConvertUTF16toUTF8 likewise |
| UtfConvert.Recodes8To32 | demo/shared/linenoise-ng/ConvertUTF.cpp:463-521 | ConvertUTF8toUTF32 likewise |
| UtfConvert.Recodes8To16 | demo/shared/linenoise-ng/ConvertUTF.cpp:337-406 | ConvertUTF8toUTF16 likewise |
| UtfConvert.RoundTrips | demo/shared/linenoise-ng/ConvertUTF.cpp:62-521 | UTF-32 through UTF-8 and back, UTF-32 through UTF-16 and back, and UTF-16 through UTF-8 and back give the input, for every sequence of scalar values |
| UtfConvert.DirectEqualsDetour | demo/shared/linenoise-ng/ConvertUTF.cpp:215-406 | UTF-16 to UTF-8 directly is UTF-16 to UTF-32 to UTF-8, and the other way round |
| UtfConvert.ResumedChars | demo/shared/linenoise-ng/ConvertUTF.cpp:265-280 | Any number of calls with any capacities, each going on where the last stopped, take whole characters and write exactly those |
| UtfConvert.ResumedWhole | demo/shared/linenoise-ng/ConvertUTF.cpp:265-280 | Once they have taken everything they have written what one call with enough room writes |
| UtfConvert.ResumedAll | demo/shared/linenoise-ng/ConvertUTF.cpp:265-280 | As many calls as there are characters, each with room for the longest form of one, take everything and write the whole conversion |
| UtfConvert.LongestForms | demo/shared/linenoise-ng/ConvertUTF.cpp:256-264 | A character takes at most one unit in UTF-32, two in UTF-16 and four in UTF-8 |
| UtfConvert.EndsWellIff16 | demo/shared/linenoise-ng/ConvertUTF.cpp:111-281 | A strict call from UTF-16 ends well exactly when the input is well formed and the target large enough |
| UtfConvert.EndsWellIff32 | demo/shared/linenoise-ng/ConvertUTF.cpp:62-459 | A strict call from UTF-32 ends well exactly when all values are scalar values and the target is large enough |
| UtfConvert.EndsWellIff8 | demo/shared/linenoise-ng/ConvertUTF.cpp:337-521 | A strict call from UTF-8 ends well exactly when the input is pieces that pass the check and their characters fit the target |
| UtfConvert.Takes16 | demo/shared/linenoise-ng/ConvertUTF.cpp:111-281 | Of any UTF-16 input a strict call takes a well-formed prefix and writes its conversion |
| UtfConvert.Takes8To32 | demo/shared/linenoise-ng/ConvertUTF.cpp:463-521 | Of any UTF-8 input a strict call takes pieces that pass the check and writes their characters; encoding those gives the input back exactly when every piece is well formed |
| UtfConvert.Takes8To16 | demo/shared/linenoise-ng/ConvertUTF.cpp:337-406 | Likewise towards UTF-16 |
| UtfConvert.ConvertsPrefix | demo/shared/linenoise-ng/ConvertUTF.cpp:62-521 | Well-formed input in front of anything is converted as on its own, and the call goes on behind it |
| UtfConvert.StopsIff32To16 | demo/shared/linenoise-ng/ConvertUTF.cpp:76-92 | With room for one unit more a strict call stops at the first value that is not a scalar value, pointing at it and having converted what comes before, exactly when it is a surrogate; otherwise it goes past it |
| UtfConvert.StopsIff32To8 | demo/shared/linenoise-ng/ConvertUTF.cpp:420-446 | Likewise; it goes past it once a replacement character fits |
| UtfEndings.EndsIff32 | demo/shared/linenoise-ng/ConvertUTF.cpp:76-92 | From UTF-32: the exact conditions on what follows scalar values for a strict call to end there with sourceIllegal and with targetExhausted |
| UtfEndings.EndsIff16 | demo/shared/linenoise-ng/ConvertUTF.cpp:118-147 | Behind well-formed UTF-16 that fits, pointing at what follows, a strict call ends with sourceIllegal exactly when a low surrogate follows or a high one with something else behind it; sourceExhausted exactly for a high one at the very end; targetExhausted exactly for a whole character that does not fit; ok exactly at the end |
| UtfEndings.EndsIff8 | demo/shared/linenoise-ng/ConvertUTF.cpp:343-352 | Likewise behind UTF-8: sourceIllegal exactly when as many bytes follow as the first asks for and they do not pass the check; sourceExhausted exactly when there are fewer; targetExhausted exactly for a whole readable character that does not fit |
| UtfLenient.Lenient8 | demo/shared/linenoise-ng/ConvertUTF.cpp:337-521 | From UTF-8 lenient calls do what strict ones do, for any input |
| UtfLenient.Lenient16 | demo/shared/linenoise-ng/ConvertUTF.cpp:118-147 | From any UTF-16 a lenient call takes the UTF-16 form of what it writes, pairs joined and lone surrogates as they are, and stops only at the end, at a high surrogate that is the last unit, or when the next value does not fit |
| UtfLenient.Lenient32To16 | demo/shared/linenoise-ng/ConvertUTF.cpp:76-92 | From any UTF-32 a lenient call does what a strict one does once each value that is no scalar value is replaced by U+FFFD |
| UtfLenient.Lenient32To8 | demo/shared/linenoise-ng/ConvertUTF.cpp:410-459 | From any UTF-32 a lenient call writes every value, those past 0x10FFFF as U+FFFD, until one does not fit; at the end it returns sourceIllegal exactly when there was one past 0x10FFFF |
| UtfConvert.PastTheLastPlane | demo/shared/linenoise-ng/ConvertUTF.cpp:87-92 | Concrete inputs with such a value: passed over, the rest converted, sourceIllegal returned past the end |
| UtfConvert.SlippedExample | demo/shared/linenoise-ng/ConvertUTF.cpp:304-312 | ED 41 80 is not UTF-8 and is accepted as U+C040 |
| UtfConvert.WritesWithin | demo/shared/linenoise-ng/ConvertUTF.cpp:62-521 | No call writes more than the room given nor takes more than the source has |
| UtfLoops.PutBytes | demo/shared/linenoise-ng/ConvertUTF.cpp:256-276 | The falling-through switch, writing backwards, leaves the RFC 3629 encoding at the target and touches nothing else |
| UtfLoops.ReadBytes | demo/shared/linenoise-ng/ConvertUTF.cpp:357-365 | The falling-through reading switch gives the character of those bytes |
| UtfLoops.PutUtf16 | demo/shared/linenoise-ng/ConvertUTF.cpp:392-401 | Writes one or two units, or nothing when the second would not fit |
| UtfLoops.NextUtf16 | demo/shared/linenoise-ng/ConvertUTF.cpp:118-147 | Reads a unit or a pair; lone surrogates are errors in strict mode, a high one at the end is an exhausted source, as UtfEndings.EndsIff16 and UtfLenient.Lenient16 have it |
| UtfLoops.NextUtf8 | demo/shared/linenoise-ng/ConvertUTF.cpp:343-365 | Reads one checked character, or says whether the source ended or is malformed, as UtfEndings.EndsIff8 has it for what follows well-formed input |
| UtfLoops.ConvertUTF32toUTF16 | demo/shared/linenoise-ng/ConvertUTF.cpp:62-107 | The loop returns the status, position and units of Convert, for any input, mode and capacity, and leaves the rest of the target alone |
| UtfLoops.ConvertUTF32toUTF8 | demo/shared/linenoise-ng/ConvertUTF.cpp:410-459 | Likewise |
| UtfLoops.ConvertUTF16toUTF32 | demo/shared/linenoise-ng/ConvertUTF.cpp:111-164 | Likewise |
| UtfLoops.ConvertUTF16toUTF8 | demo/shared/linenoise-ng/ConvertUTF.cpp:215-281 | Likewise |
| UtfLoops.ConvertUTF8toUTF32 | demo/shared/linenoise-ng/ConvertUTF.cpp:463-521 | Likewise |
| UtfLoops.ConvertUTF8toUTF16 | demo/shared/linenoise-ng/ConvertUTF.cpp:337-406 | Likewise |

## Left out

- UdtSender.SndBuffer.ReadDataAt: requires that the blocks, with the empty messages added, are not more than the 0x1FFFFFFE message numbers; beyond that its walk may run past the last block. src/udt/newlib/core.cpp adds no empty message (lines 971, 1147).
- Blocks never written have message number 0, as the constructor sets it for all but its last block (src/udt/newlib/buffer.cpp:69-73); the source leaves that one and those of a grown ring unset.
- `addBufferFromFile` and `readBufferToFile`.
- UDT sequence numbers do not wrap around here, and the two loss lists are not kept: a packet may be sent again at any time after its first transmission, a message may expire at any retransmission, and the receiver may acknowledge up to any point before which all packets are held or named in a drop request that has come in, within its buffer. Timers, congestion control and the handshake are not part of this model.
- A run goes on after numbers have run ahead only as far as the buffers' own preconditions allow: no acknowledgement of more packets than have been handed out is taken.
- The head pointer of the block ring and the destructors: the head pointer is only used to free the blocks.
- The pointers into the physical buffers are set when a block is made rather than in a second loop; memory that runs out is not modelled.
- Negative offsets and buffer lengths below zero, which no caller in src/udt/newlib/core.cpp passes to the buffers (`recvmsg` returns before for a length of 0 or less, core.cpp:1249); a negative length of `readMsg` would mean "no limit".
- UdtReceiver.RcvBuffer.AddData: requires an offset inside the free window, as src/udt/newlib/core.cpp:2297 checks before the call.
- UdtReceiver.RcvBuffer.ReadMsg: requires that neighbouring packets agree on message boundaries, as everything a sending buffer cuts does; boundary bits forged on the way are not modelled.
- UdtReceiver.RcvBuffer.ReadBuffer: requires every acknowledged slot to hold its packet, which the runs of UdtTransfer keep; mixing readBuffer and readMsg on one socket is not modelled.
- Locks around the buffers and any other interleaving inside a method.
- Adaptive throttling, `set_max_rate` in mid-run and the `on_data_rate` callback: rate and mode of an account are fixed when it is made.
- Framing.Pack: frame sizes are below 65536, as the pool's 16-bit sizes are; a size above 65537 would overflow the length field.
- WriterPools.WriterPool: accounts are values holding the queue's contents (WriterQueues proves the queue's methods against these); a callback that calls back into the pool during a step is not modelled.
- The `select` version of the poller, which is the `poll` version without the error branch, and the `epoll` version.
- `enqueue_broadcast`, which enqueues for each account, and priorities, which this writer queue ignores.
- `socket_pool::count`, whose own check compares the wrong way round.
- Reading the 5- and 6-byte forms of UTF-8 in the converters' switches: `isLegalUTF8` rejects those lengths first.
- `isLegalUTF8Sequence`, which adds only a length test to the check.
