# Verification of the XRCE client streams, the transport queue and the CDR codec

This project models three linked parts of the client and proves what they promise.

**The reliable stream pair.** A sender and a receiver that share the layout of a slot ring: one
flat buffer cut into `history` slots, each with a 4-byte length in front. The classes
`OutputReliableStream` and `InputReliableStream` keep the 16-bit fields of the source and, as
ghost fields, the unbounded counters behind them (`acked <= sent < written`, `handled`,
`announced`). Their window invariant says what every slot holds; it survives the wrap at 65536
and the reuse of slots. Writing covers appending to the open slot, opening a new one and
fragmenting over several; receiving covers out-of-order storage, reassembly through a chained
buffer, and lazy clean-up. `protocol.dfy` joins both by a network that loses, copies and
reorders, with step order as in session.c, and proves safety over all runs;
`protocol_progress.dfy` proves that one loss-free round catches up; `protocol_contracts.dfy`
ties the steps to the contracts of the classes. `protocol_memory.dfy` adds the memory of the
sender and `protocol_tags.dfy` the kinds of its slots, so that `protocol_arrivals.dfy` can say which
messages get whole from WriteMessage to the reader, over all runs; `protocol_keeping.dfy` says what
the reader gets from which packets arrived, in whatever order; `protocol_calls.dfy` and
`protocol_transfer.dfy` make such runs with the calls of the classes.

**The variable-length ring queue** (`lqueue*.dfy`). It refines a bounded first-in first-out list of
byte strings: every operation answers as that list would, wherever headers and payloads wrap.

**The MicroCDR buffer and the sample codec** (`ucdr_buffer.dfy`, `cdr_tokens.dfy`,
`sample_*.dfy`). A buffer walks along a path of memory positions that its on-full callback cuts into
areas; contracts speak about the path, so they do not depend on the cutting. Writers add tokens
to a log, readers give the value whose tokens lie ahead, and decoding undoes encoding, over
chained areas too; `wire_format.dfy` says byte by byte what stands where, in numbers, and that tokens
mean just that; `sample_delivery.dfy` takes an encoded sample through the stream pair.

## How to read it

Counters without a width are unbounded; `SeqNum.Wrap` and `SeqNum.Unwrap` relate them to the 16-bit
fields. Classes expose a pure view (`View()`, `St()`), and their contracts equate the new view with a
function of the old one; the reasoning about views is in small lemmas. Predicates bind their body to a
variable, and bodies start with `hide` statements, so that each proof sees only the definitions it needs.

The proofs stand under these assumptions, which are preconditions where they matter: `history` is a
power of two (inc/session/session.h:368-370) and at most 2^14, at most 16 where the width of the
acknowledgement bitmap matters; the header offset is a multiple of 4 and leaves room for a
subheader in a slot; slots have at most 65535 bytes; received messages are not empty and fit a slot;
the receiver has at least as many slots as the sender, with room for its bodies: a message is sent with
its header, and read_message (srcs/session/session.c:847-855) takes the header off before the
receiving stream sees it. UCDR_MACHINE_ENDIANNESS is big-endian
(config.h), and a 32-bit length is stored in that order.

## Findings

- `lqueue_back` compares `readIndex > bufferLength` where it should compare `>=` (lqueue.c:329-335). When an
  earlier message ends exactly at the end of the buffer it reads behind the buffer. `VLQueue.Back` states
  exactly when (`fault`), and `LQueue.BackCanFault` makes five calls that lead to such a queue.
- `check_last_fragment` does not come to an end when every slot of the window holds an intermediate fragment
  (`InputWindow.WalkNeverStops`, and `InputLimits.WalkCanGoOnForEver` with such a memory). Fragments received from
  the front fill the window if and only if there are at least as many of them as slots
  (`InputLimits.FragmentsFillTheWindow`); a sender whose chains fit the window never gets there
  (`ProtocolContracts.WalkAlwaysStops`).
- In the fragmenting branch the later test `necessary_complete_blocks <= remaining_blocks` never refuses; alone
  it would allow one slot too many (`OutputGrant.LaterTestAloneIsTooWeak`).
- Not every accepted message gets whole to the reader. The fragmenting branch starts in the open slot behind what
  that holds already, but the receiver gives a slot one kind only, read from its first four bytes
  (srcs/session/session.c:1277-1296), which are those of the earlier writer. Over every run from two initialised
  streams, all accepted messages that the receiver has handled arrive if and only if none of them starts as fragments
  in a slot that is in use (`ProtocolArrivals.AllMessagesArrive`); a caller can see that before the call
  (`ProtocolArrivals.StartsAloneByRoom`). Any other message is split: its first piece ends the contents of the slot it
  starts in, the rest begins the next contents (`ProtocolArrivals.MessageIsSplit`). Two messages of 29 bytes are
  enough (`FragmentExamples.TwoMessagesShareASlot`).
- What the fragments of a message join to can be more than the message. First comes what the first slot held
  before, without its first four bytes and with a subheader at its end; last comes what is written behind the last
  fragment before that is sent. `ProtocolMessages.FragmentsOnTheWire` gives all of it, and the message alone if and
  only if the first fragment starts in an empty slot and no later write starts in the last one.
  `FragmentExamples.LateWriteIsJoined` runs into the second case; in the first, `FragmentExamples.EarlierWriteSplits`,
  a single earlier byte would not be among the joined bytes at all.
- Acknowledged is not delivered: with fragments the receiver acknowledges what it has stored, so last_acknown may
  pass last_handled (`ProtocolAcks.AckCanPassHandled` is a run). It does so if and only if the acknowledgement was
  sent with a chain without an end at the front that still has none (`ProtocolAcks.AckPassesHandledInRuns`). What is
  freed is delivered or stored all the same.
- `uxr_process_acknack` does not look whether the number it gets is one it can have. An acknowledgement that goes
  back, as a late copy does, empties every slot, sent or not (`OutputWindow.AckFreesWhatItNames`); the protocol
  therefore lets acknowledgements be lost and copied, but not overtake each other.
- The comment in on_full_input_buffer says that a short slot only happens when history is not a power of two
  (srcs/session/stream/input_reliable_stream.c:246). It also happens when a reader goes past the end of its chain,
  if and only if the next message is not stored or is shorter than a subheader (`InputLimits.GoPastTheChain`).
- on_full_output_buffer never fails. The writer of a fragmented message that goes past its grant gets an area of the
  size `buffer_size - offset - SUBHEADER_SIZE`, which underflows, unless the window is used up and its oldest slot
  holds a subheader (`OutputLimits.GoPastTheGrant`).
- A value in the byte order that is not the machine's, cut by an area boundary, is neither written nor read right:
  see `SwappedBytes.SomeValueIsMisplaced` and `SwappedBytes.SomeValueIsMisread`.
- A serialiser of a byte sequence with no elements answers true even if writing its length failed
  (CDR/sequence.c:42-53), and so do the serialisers built on it; only the error flag of the buffer can be relied on.

## Model

| member | source | states |
|---|---|---|
| Protocol.DeliveryIsSafe | srcs/session/session.c:917-937 | End-to-end safety over every run from two initialised streams, with packets and heartbeats lost, copied and reordered (at most 2^15 numbers late) and acknowledgements lost or copied in order: what was delivered is a gap-free, duplicate-free prefix of the bodies that were sent; the reader was given exactly the messages of that prefix, fragments put together; everything the sender has freed is delivered or stored intact |
| Protocol.UnfragmentedDeliveryIsSafe | srcs/session/session.c:917-937 | Without fragments the reader has exactly a prefix of the sent messages, and the last acknowledged number never passes the last handled one |
| Protocol.StepIsSafe | srcs/session/session.c:1061-1102 | Every single step (write, send, arrival of a packet, a heartbeat or an acknowledgement, loss) keeps the joint invariant of both streams and the network |
| Protocol.RunIsSafe | srcs/session/session.c:1061-1102 | The joint invariant holds after runs of any length, by induction over the steps |
| Protocol.Distances | srcs/session/stream/output_reliable_stream.c:259-276 | In every safe state the counters of both sides are close: the first missing number is inside the receive window, nothing beyond what was sent is announced, and the sender never acknowledges past what the receiver has |
| Protocol.NumberIsRight | srcs/session/stream/input_reliable_stream.c:54-105 | A 16-bit number on a packet that is at most 2^15 behind stands for the number the sender meant, for both counters of the receiver that look at it |
| Protocol.AckIsRight | srcs/session/stream/output_reliable_stream.c:259-276 | A 16-bit acknowledgement stands for the number the receiver meant, and names only sent messages |
| Protocol.ReadFollows | srcs/session/session.c:917-937 | One reading step, whatever packet it gets, once read_message has taken the header off: the delivered bodies stay a prefix, the reader gets exactly the newly completed messages, and the first missing number never goes back |
| ProtocolProgress.RoundCatchesUp | srcs/session/session.c:1061-1102 | Progress from every safe state, with at most 16 sender slots: after one loss-free round (heartbeat, acknowledgement, resend of everything missing, last acknowledgement) the sender is up to date and nothing is missing; unless the log ends inside a chain everything is delivered once |
| ProtocolProgress.RoundIsPossible | srcs/session/session.c:1061-1102 | From every safe state such a round can take place |
| ProtocolContracts.ReadStreamIsCallable | srcs/session/session.c:917-937 | Every arrival in a safe state meets the precondition of ReadStream |
| ProtocolContracts.ComputeAcknackIsCallable | srcs/session/stream/input_reliable_stream.c:162-180 | Every safe state meets the precondition of ComputeAcknack, with at most 16 sender slots also the one about the width of the bitmap |
| ProtocolContracts.AcksAreInRange | srcs/session/stream/output_reliable_stream.c:259-276 | In every safe state every acknowledgement that can still arrive is for a number from the last acknowledged to the last sent one, so that ProcessAcknack does what it is for |
| ProtocolContracts.PrepareNextIsSending | srcs/session/stream/output_reliable_stream.c:170-193 | The effect of PrepareNextToSend on a stream is the sending step of the protocol |
| ProtocolContracts.LogPacketsAreCarried | srcs/session/session.c:1093-1098 | The packets of the resend loop are those of the resending step |
| ProtocolContracts.WalkAlwaysStops | srcs/session/stream/input_reliable_stream.c:185-212 | With chains no longer than the receive window the walk of check_last_fragment always comes to an end |
| ProtocolMemory.CallIsSound | srcs/session/session.c:1061-1102 | A step of the protocol with the memory of the sender beside it, where writing, sending and acknowledging do what the contracts of the class allow, keeps both invariants |
| ProtocolMemory.RunIsSound | srcs/session/session.c:1061-1102 | So does every run of them; the log only grows |
| ProtocolMemory.CallGrows | srcs/session/stream/output_reliable_stream.c:54-168 | A slot in use keeps its bytes through any step, and gets more if and only if a write starts in it |
| ProtocolMemory.RunGrows | srcs/session/stream/output_reliable_stream.c:54-193 | The same over runs, from the memory up to the bytes that were sent: a slot is sent as it is now if and only if no write of the run starts in it |
| FragmentSpelling.GrantMakesAChain | srcs/session/stream/output_reliable_stream.c:100-164 | The fragments of a grant are no more than the sender has slots, each with bytes behind its subheader, as the protocol assumes of chains |
| FragmentSpelling.GrantJoined | srcs/session/stream/output_reliable_stream.c:104-164 | What a reader puts together from the slots of a grant is what the first one held behind its first four bytes, and then the payload of the grant |
| ProtocolMessages.FragmentsOnTheWire | srcs/session/stream/output_reliable_stream.c:54-164 | What the reader puts together from the fragments as they are sent, over every run: what the first slot held before without its first four bytes, the message, and what was written behind it into the last slot before that was sent; it is the message if and only if the first fragment starts in an empty slot and no later write starts in the last one |
| ProtocolMessages.AppendedIsSent | srcs/session/stream/output_reliable_stream.c:71-99 | A message that was appended to a slot lies unbroken in the body that is sent, at the place it was given |
| ProtocolMemory.WriteIsPossible | srcs/session/stream/output_reliable_stream.c:54-168 | What the contract of WriteMessage ensures is all that a writing step with the memory of the sender asks for |
| ProtocolMemory.AckIsPossible | srcs/session/stream/output_reliable_stream.c:259-276 | What the contract of ProcessAcknack ensures is all that the arrival of an acknowledgement asks for, whichever of those under way it is |
| ProtocolTags.CallIsTidy | srcs/session/stream/output_reliable_stream.c:54-193 | Every step keeps what is known of the kinds of slots, each fixed by its first writer: just the slots in use have one, an intermediate fragment is followed by another fragment and within the window by a last one, and fragments have bytes behind their subheaders |
| ProtocolTags.RunIsTidy | srcs/session/stream/output_reliable_stream.c:54-193 | So does every run, and a slot keeps its kind |
| ProtocolTags.SendIsPossible | srcs/session/stream/output_reliable_stream.c:170-193 | If the receiver sees those kinds, whatever the window allows to be sent keeps the chains whole, as the protocol asks of what is sent |
| ProtocolArrivals.StartsAloneByRoom | srcs/session/stream/output_reliable_stream.c:71-112 | Whether an accepted message starts as fragments behind something else, told before the call: it does if and only if it does not fit a slot and the open slot is neither empty nor too full to take more than a subheader |
| ProtocolArrivals.SlotsOfGrant | srcs/session/session.c:1277-1296 | The receiver sees in the slots of a message the kinds that the message asks for, except in a first slot that was in use before: there it sees another kind, and never an intermediate fragment |
| ProtocolArrivals.PiecesOnTheWire | srcs/session/stream/output_reliable_stream.c:104-164 | A fragmented message as it is sent, over every run: its first piece comes last in its first slot, and the other slots join to the rest of it and what came behind |
| ProtocolArrivals.MessageIsRead | srcs/session/session.c:847-937 | From WriteMessage to the reader: in every run, once the receiver has handled the last slot of a message that does not start as fragments behind something else, the message lies unbroken in one of the contents the reader was given |
| ProtocolArrivals.MessageIsSplit | srcs/session/stream/output_reliable_stream.c:104-164 | Every other message is split between two contents that follow each other: its first piece ends the contents its first slot goes into, and the rest begins the next |
| ProtocolArrivals.ArrivesExactly | srcs/session/session.c:847-937 | For a handled message of any run: all its slots go into the same contents and it lies unbroken there, if and only if it does not start as fragments behind something else |
| ProtocolArrivals.AllMessagesArrive | srcs/session/session.c:847-937 | Over every run from two initialised streams, under any kinds of bodies that fit all its writes at once: all accepted messages that the receiver has handled arrive in this way if and only if none of them starts as fragments behind something else |
| SampleDelivery.SampleArrives | srcs/serialization/xrce_types.c:2179-2241 | The same as MessageIsRead for an encoded value: the reader was given contents in which the bytes of the value stand where any buffer is that has come to the right place, however it is cut into areas |
| ProtocolCalls.Write | srcs/session/stream/output_reliable_stream.c:54-168 | WriteMessage on a stream in any state that keeps both invariants is a writing step if it accepts the message, which it does if and only if there is the room, and changes nothing if it does not |
| ProtocolCalls.Send | srcs/session/stream/output_reliable_stream.c:170-193 | PrepareNextToSend on such a stream hands out a message exactly when one can be sent, and that is a sending step |
| ProtocolCalls.Acknowledge | srcs/session/stream/output_reliable_stream.c:259-276 | ProcessAcknack with an acknowledgement that may arrive is the step of its arrival |
| ProtocolCalls.Arrive | srcs/session/session.c:917-937 | ReadStream with a packet under way that is not too old is the step of its arrival, and gives the reader what the step says |
| ProtocolCalls.Answer | srcs/session/stream/input_reliable_stream.c:162-180 | The acknowledgement that the receiver makes up in such a state is the one of the protocol: it names the first missing number, and its bitmap is zero if and only if nothing announced is missing |
| ProtocolCalls.ArriveAndAnswer | srcs/session/session.c:917-937 | Reading a packet and answering it is one step of its arrival, with this acknowledgement added as it goes over the wire |
| ProtocolCalls.HeartbeatArrives | srcs/session/session.c:1061-1076 | Processing a heartbeat and answering it is the step of its arrival |
| ProtocolTransfer.SendAll | srcs/session/session.c:628-645 | The flush loop is a run of sending steps that ends when nothing more can be sent, with the packets it hands out under way in their order |
| ProtocolTransfer.ArriveAll | srcs/session/session.c:1061-1102 | Reading packets once each and in order is a run of arrivals after which no number up to the last of them is missing |
| ProtocolTransfer.Transfer | srcs/session/session.c:1061-1102 | A loss-free transfer with the calls of both classes: everything written is sent and handled, and the reader is given exactly the messages that the sent bodies complete |
| ProtocolTransfer.TaggedIsSent | srcs/session/session.c:628-645 | When nothing more can be sent just the slots in use have been, and no chain is cut |
| FragmentExamples.LateWriteIsJoined | srcs/session/stream/output_reliable_stream.c:71-99 | A run of calls: one byte written behind the last fragment of a 17-byte message before the flush comes to the reader as the end of the same contents, which begin with the message; both messages arrive |
| FragmentExamples.EarlierWriteSplits | srcs/session/stream/output_reliable_stream.c:104-164 | The same for one byte written before the first fragment: it comes first in the body of the first packet, where the subheader should be, so the bodies joined would be four other bytes and the message, and the reader gets the message in two contents |
| FragmentExamples.SharedGrants | srcs/session/stream/output_reliable_stream.c:104-164 | Two messages of 29 bytes in a row on an empty stream with slots of 28 bytes: the second starts at byte 12 of the last slot of the first |
| FragmentExamples.TwoMessagesShareASlot | srcs/session/stream/output_reliable_stream.c:104-164 | The calls themselves, up to the reader: a run under one kind of bodies that fits both writes, in which the second message comes to the reader in two contents, so that not all messages arrive |
| ProtocolAcks.AckShowsChain | srcs/session/stream/input_reliable_stream.c:214-229 | In every safe state an acknowledgement goes past the last handled number if and only if the next number is stored, as part of a chain without an end |
| ProtocolAcks.AckPassesHandled | srcs/session/stream/output_reliable_stream.c:259-276 | An arriving acknowledgement takes last_acknown past last_handled if and only if it was sent with a chain without an end at the front and nothing was handled since |
| ProtocolAcks.AckPassesHandledInRuns | srcs/session/stream/output_reliable_stream.c:259-276 | The same after every run from two initialised streams |
| ProtocolAcks.AckedPastHandled | srcs/session/stream/output_reliable_stream.c:259-276 | Whatever lies between the two numbers is stored as an intermediate fragment, byte for byte as sent |
| ProtocolAcks.AckCanPassHandled | srcs/session/stream/output_reliable_stream.c:259-276 | A run in which last_acknown passes last_handled |
| ProtocolContracts.OldPacketIsMistaken | srcs/session/stream/seq_num.c:26-45 | A packet 2^16 - 1 numbers late is taken for the next one: the bound on the age of packets is needed |
| DeliveryOrder.ReceivedFollows | srcs/session/stream/input_reliable_stream.c:54-105 | Receiving any message of the log keeps the receiver in step with it, and receiving the first missing one moves on |
| DeliveryOrder.TakenFollows | srcs/session/stream/input_reliable_stream.c:54-105 | The same for a message that is announced already: delivered at once, stored or dropped, the reader gets it exactly when it is delivered at once |
| DeliveryOrder.DeliverAllFollows | srcs/session/session.c:930-934 | Delivering until nothing more is deliverable gives the reader the next completed messages in order, and changes nothing about what is missing |
| DeliveryOrder.SettledHasRoom | srcs/session/stream/input_reliable_stream.c:214-229 | While nothing is deliverable some window slot is empty, so the first missing number is found |
| DeliveryOrder.NothingMissing | srcs/session/stream/input_reliable_stream.c:107-140 | If nothing is missing and the log does not end inside a chain, everything is delivered |
| FragmentChains.EntryIsCompleted | srcs/session/stream/input_reliable_stream.c:107-140 | Every sent entry before a boundary is completed: a single message as it is, a fragment as part of its whole chain |
| FragmentChains.CompletedUnfragmented | srcs/session/stream/input_reliable_stream.c:107-140 | Without fragments the completed messages are the log itself |
| SeqNum.AddIsExact | srcs/session/stream/seq_num.c:10-15 | 16-bit addition is addition of the unbounded counters, cut to 16 bits |
| SeqNum.SubIsExact | srcs/session/stream/seq_num.c:17-24 | 16-bit subtraction likewise |
| SeqNum.SubGivesDistance | srcs/session/stream/seq_num.c:17-24 | Subtraction gives the exact distance of two counters less than 2^16 apart |
| SeqNum.CmpIsExact | srcs/session/stream/seq_num.c:26-45 | Comparison agrees with the order of the unbounded counters within half the number space |
| SeqNum.CmpSeesUnwrap | srcs/session/stream/seq_num.c:26-45 | Comparison with any 16-bit number is comparison with the nearest unbounded number it can stand for |
| SeqNum.UnwrapIsUnique | srcs/session/stream/seq_num.c:26-45 | A 16-bit number stands for the right unbounded one if and only if it is within half the number space |
| SeqNum.CmpIsAntisymmetricExceptAtMidsize | srcs/session/stream/seq_num.c:26-45 | Comparison is antisymmetric except at distance 2^15, where both directions answer "greater" (section 3.2 of RFC 1982 leaves these undefined) |
| ReliableRing.WrapKeepsSlot | srcs/session/stream/common_reliable_stream_internal.h:33-40 | Cutting a counter to 16 bits does not change its slot, because history is a power of two |
| ReliableRing.SlotsDiffer | srcs/session/stream/common_reliable_stream_internal.h:33-40 | Numbers less than history apart never share a slot |
| ReliableRing.SlotIsPeriodic | srcs/session/stream/common_reliable_stream_internal.h:33-40 | Numbers history apart share theirs |
| ReliableRing.SlotSuccessor | srcs/session/stream/output_reliable_stream.c:293-295 | The next number uses the next slot, and slot 0 after the last one |
| ReliableRing.HistoryPositionInverse | srcs/session/stream/common_reliable_stream_internal.h:48-53 | Any position inside a slot maps back to that slot |
| ReliableRing.ReliableStream.GetSize | srcs/session/stream/common_reliable_stream_internal.h:55-65 | Reads the in-band length of the slot |
| ReliableRing.ReliableStream.SetSize | srcs/session/stream/common_reliable_stream_internal.h:67-77 | Changes the length of that slot and no other length or slot byte |
| ReliableRing.LayoutIsGood | srcs/session/stream/common_reliable_stream_internal.h:42-46 | A buffer cut into history slots has all of them inside the memory |
| OutputStream.OutputReliableStream.constructor | srcs/session/stream/output_reliable_stream.c:18-52 | Initialisation and reset give an empty window over unbounded counters -1, -1 and 0, with every slot as long as its header |
| OutputStream.OutputReliableStream.PrepareNextToSend | srcs/session/stream/output_reliable_stream.c:170-193 | Sends the next message exactly when there is one and the window has room, opens a new slot when it was the open one, and keeps the window invariant |
| OutputStream.OutputReliableStream.FlashOutput | srcs/session/session.c:628-645 | The flush loop sends every message in order, once each, and stops when none is left or the window is full |
| OutputStream.OutputReliableStream.NextNackToSend | srcs/session/stream/output_reliable_stream.c:228-257 | The resend iterator gives each sent, unacknowledged message in turn with the bytes it was first sent with, then clears send_lost |
| OutputStream.OutputReliableStream.ResendLost | srcs/session/session.c:1093-1098 | The resend loop gives exactly last_acknown+1 .. last_sent |
| OutputStream.OutputReliableStream.ProcessAcknack | srcs/session/stream/output_reliable_stream.c:259-276 | For a number from the last acknowledged to the last sent one, empties exactly the newly acknowledged slots, keeps every other slot and the window invariant; for any other number, every slot the loop goes over is empty afterwards; no slot byte ever changes |
| OutputWindow.AckFreesWhatItNames | srcs/session/stream/output_reliable_stream.c:264-270 | The loop goes over no more slots than were sent if and only if the acknowledgement is for a number from the last acknowledged to the last sent one; one that goes back empties every slot of the ring |
| OutputStream.OutputReliableStream.IsUpToDate | srcs/session/stream/output_reliable_stream.c:278-282 | True exactly if everything sent is acknowledged |
| OutputStream.OutputReliableStream.GetAvailableFreeSlots | srcs/session/stream/output_reliable_stream.c:307-319 | Equals history minus the non-empty slots of the window |
| OutputStream.OutputReliableStream.OnFullOutput | srcs/session/stream/output_reliable_stream.c:287-305 | From anywhere in slot k to the payload area of slot k + 1, wrapping at the end of the ring; if that slot is too short for a subheader the size wraps at 2^32 |
| OutputLimits.PastTheGrant | srcs/session/stream/output_reliable_stream.c:287-305 | The slot behind the open one has room for a subheader if and only if the window is used up and its oldest slot has |
| OutputLimits.GoPastTheGrant | srcs/session/stream/output_reliable_stream.c:287-305 | What a writer gets that goes past its grant: never an error, and an area of the right size in exactly that case; in every other one the size is 2^32 too large |
| OutputStream.OutputReliableStream.CollectAnswers | srcs/session/stream/output_reliable_stream.c:287-305 | The callback hands the writer of a fragmented message exactly the payload areas of its fragments |
| OutputStream.OutputReliableStream.GrantInSlot | srcs/session/stream/output_reliable_stream.c:75-99 | Setting the length of one slot and handing out exactly the granted bytes of it |
| OutputStream.OutputReliableStream.GrantFragments | srcs/session/stream/output_reliable_stream.c:127-164 | The fragment loop sets the lengths of exactly the granted slots, and the writer gets a buffer that runs through exactly the granted bytes |
| OutputStream.OutputReliableStream.TryFragments | srcs/session/stream/output_reliable_stream.c:100-164 | When the first guard lets a request through, the later test never refuses it |
| OutputStream.OutputReliableStream.PrepareToWrite | srcs/session/stream/output_reliable_stream.c:54-168 | Accepts a message if and only if it fits fragments over the empty slots, or one empty slot without a subheader, or the open slot inside the window behind its aligned length; hands the writer exactly `length` bytes in unsent slots, refuses without any change, keeps the window invariant |
| OutputStream.OutputReliableStream.WriteMessage | srcs/session/stream/output_reliable_stream.c:54-168 | Writing a whole message: the granted areas spell it in order with none left over, every slot of the window keeps the bytes it had, the lengths are those of the grant, slots outside it hold what they held, and nothing sent changes; a refusal changes nothing; accepted if and only if there is the room that PrepareToWrite asks for |
| OutputWindow.SendKeepsWindow | srcs/session/stream/output_reliable_stream.c:170-193 | Sending keeps the window invariant: last_acknown <= last_sent < last_written <= last_acknown + history + 1, sent slots hold what was sent, other slots of the window are filled or empty by their place |
| OutputWindow.AckKeepsWindow | srcs/session/stream/output_reliable_stream.c:259-276 | Emptying the oldest slot moves the window on by one |
| OutputGrant.AcceptedExactly | srcs/session/stream/output_reliable_stream.c:65-126 | The same condition of the space decision, over every window, in lengths and empty slots: whatever is not longer than the blocks of all empty slots is accepted |
| OutputGrant.AcceptedWhere | srcs/session/stream/output_reliable_stream.c:65-126 | Where an accepted message goes: into the open slot if it fits there, else whole into the next one, else in as few fragments as there can be, from the open slot on if that has room for more than a subheader |
| OutputGrant.OneSlotTakesMoreThanABlock | srcs/session/stream/output_reliable_stream.c:83-99 | With one slot left behind an open slot in use, a message up to a subheader longer than the block of a fragment is accepted too: the blocks of the empty slots alone are not the condition |
| OutputGrant.GrantStaysInWindow | srcs/session/stream/output_reliable_stream.c:65-126 | The fragmentation guard is enough: every grant stays inside the window, on slots never sent, and its sizes add up to the request with every fragment non-empty |
| OutputGrant.LaterTestAloneIsTooWeak | srcs/session/stream/output_reliable_stream.c:126 | The later test alone would let the last fragment take the first slot past the window |
| OutputGrant.CountIsFreeSlots | srcs/session/stream/output_reliable_stream.c:307-319 | The count over the ring equals what the window says is free, wherever the window starts |
| OutputPath.GrantPathIsGood | srcs/session/stream/output_reliable_stream.c:104-164 | The granted positions are as many as the request, all different, and all in unsent slots |
| OutputPath.GrantKeepsWindow | srcs/session/stream/output_reliable_stream.c:54-168 | Making a grant keeps the window invariant |
| OutputPath.WritingKeepsWindow | srcs/session/stream/output_reliable_stream.c:54-168 | Writing the granted bytes keeps the window invariant, so sent data is frozen |
| OutputPath.PayloadIsMessage | srcs/session/stream/output_reliable_stream.c:100-164 | If the path of a grant holds a message, the payload areas of its slots spell it, slot by slot |
| OutputPath.WritingAppends | srcs/session/stream/output_reliable_stream.c:71-165 | No write takes a byte away from a slot that had it |
| OutputPath.WritingKeepsOthers | srcs/session/stream/output_reliable_stream.c:71-165 | After a write the lengths are those of the grant, and other slots of the window are as before |
| InputStream.InputReliableStream.constructor | srcs/session/stream/input_reliable_stream.c:23-52 | Initialisation and reset give an empty window |
| InputStream.InputReliableStream.Receive | srcs/session/stream/input_reliable_stream.c:54-105 | A number inside the window is afterwards handled, or stored with its message unless it was stored before; nothing stored is lost; outside nothing is stored; `messageStored` says whether it was stored, "ready" whether something was or can be delivered; the announced number is the larger one; the window invariant is kept |
| InputStream.InputReliableStream.NextBufferAvailable | srcs/session/stream/input_reliable_stream.c:107-140 | Delivers the next single message or complete chain, or nothing; the buffer it hands out runs through exactly the contents, and its callback answers are the payload areas of the other slots of the chain |
| InputStream.InputReliableStream.ProcessHeartbeat | srcs/session/stream/input_reliable_stream.c:142-154 | Moves the last announced number forward only |
| InputStream.InputReliableStream.IsUpToDate | srcs/session/stream/input_reliable_stream.c:156-160 | True exactly if everything announced is handled |
| InputStream.InputReliableStream.ComputeAcknack | srcs/session/stream/input_reliable_stream.c:162-180 | `from` is the first missing number, and bit i, below 16, says whether the slot of from + i is empty and announced |
| InputStream.NackBitmapIsExact | srcs/session/stream/input_reliable_stream.c:162-180 | The bitmap is non-zero if and only if something announced is missing, and inside the window bit i is set if and only if from + i is announced and missing |
| InputStream.InputReliableStream.CheckLastFragment | srcs/session/stream/input_reliable_stream.c:185-212 | Finds the last fragment if and only if the chain at the front is complete |
| InputStream.InputReliableStream.GetFirstUnacked | srcs/session/stream/input_reliable_stream.c:214-229 | The first number neither delivered nor stored |
| InputStream.InputReliableStream.OnFullInput | srcs/session/stream/input_reliable_stream.c:231-260 | From anywhere in slot k to the payload of slot k + 1; with the clean-up flag set it empties exactly that slot |
| InputStream.InputReliableStream.DrainChain | srcs/session/stream/input_reliable_stream.c:231-260 | So many calls of the callback with the clean-up flag set hand out the payload areas of the next slots, in order, and empty just these slots |
| InputStream.InputReliableStream.AdvanceDelivered | CDR/common.c:188-209 | Advancing over a delivered buffer by any number of its bytes empties exactly the slots of the areas it goes on to; by all of them, the whole chain, and the callback has no answer left |
| InputStream.InputReliableStream.ReadThrough | srcs/session/read_access.c:166-173 | The second buffer over the same bytes reads exactly the contents and leaves the first one and the slots as they are |
| InputStream.InputReliableStream.ReadNext | srcs/session/read_access.c:158-254 | One turn of delivery, read through the second buffer and then advanced over: the contents are exactly the message or the payloads of the chain, and its slots are empty afterwards |
| InputStream.InputReliableStream.DeliverStored | srcs/session/session.c:930-934 | The delivery loop delivers everything deliverable, in order |
| InputStream.InputReliableStream.ReadStream | srcs/session/session.c:917-937 | Receiving one message and delivering whatever has become deliverable |
| InputWindow.ChainEndIsLast | srcs/session/stream/input_reliable_stream.c:185-212 | The walk ends at a last fragment behind stored intermediate ones |
| InputWindow.CompleteChainIsFound | srcs/session/stream/input_reliable_stream.c:185-212 | A complete chain is found |
| InputWindow.WalkNeverStops | srcs/session/stream/input_reliable_stream.c:185-212 | If every window slot holds an intermediate fragment, the walk meets one at every step, however long it goes on |
| InputLimits.FragmentsFillTheWindow | srcs/session/stream/input_reliable_stream.c:185-212 | Intermediate fragments received from the front, with nothing stored behind them: the walk comes to an end if and only if there are less of them than slots |
| InputLimits.WalkCanGoOnForEver | srcs/session/stream/input_reliable_stream.c:185-212 | A memory of two slots that two received fragments lead to, over which the walk never ends |
| InputLimits.SecondFragmentIsTooMany | srcs/session/stream/input_reliable_stream.c:54-105 | The same on a stream: after one fragment the walk ends, and with the second it would not |
| InputLimits.PastTheChain | srcs/session/stream/input_reliable_stream.c:246-250 | Behind a delivered chain the next slot is too short for a subheader if and only if the next message is not stored or is that short |
| InputLimits.GoPastTheChain | srcs/session/stream/input_reliable_stream.c:231-260 | So the callback of a reader that goes past the end of its chain fails if and only if that is so, for a history that is a power of two |
| InputWindow.MissingFromIsFirst | srcs/session/stream/input_reliable_stream.c:214-229 | Everything before the first missing number is stored, and it is not |
| InputWindow.DirectKeepsWindow | srcs/session/stream/input_reliable_stream.c:69-74 | A direct delivery keeps the window invariant |
| InputWindow.StoreKeepsWindow | srcs/session/stream/input_reliable_stream.c:75-97 | Storing a message keeps the window invariant |
| InputWindow.DeliverKeepsWindow | srcs/session/stream/input_reliable_stream.c:117-136 | Handing out a message or a chain keeps the window invariant |
| InputWindow.DrainKeepsWindow | srcs/session/stream/input_reliable_stream.c:231-260 | Emptying one more slot of a chain keeps the window invariant |
| InputPath.ReadPathIsGood | srcs/session/stream/input_reliable_stream.c:231-260 | Reassembly: the path through the slots of a chain holds the payloads of its fragments, in order |
| InputWindow.ReceivedIsKept | srcs/session/stream/input_reliable_stream.c:54-105 | A message inside the window is never lost: the next number, if it is a whole message, is delivered, and any other number is stored as it came unless it is stored already; what was stored stays; outside the window nothing happens |
| InputDelivery.ReadyExactly | srcs/session/stream/input_reliable_stream.c:54-105 | With nothing deliverable before, a receive reports "ready" if and only if it delivered its message or made something deliverable |
| InputDelivery.DeliverAllKeepsAll | srcs/session/session.c:930-934 | The delivery loop loses no number and makes none up |
| ProtocolKeeping.ArrivalIsKept | srcs/session/session.c:917-937 | After the arrival of any packet, in any order, the receiver has exactly what it had and the number of that packet if it is inside the window, delivered or stored as it was sent |
| ProtocolKeeping.RunKeepsAll | srcs/session/session.c:917-937 | Over every run the receiver has exactly what it had and the numbers that came into its window |
| ProtocolKeeping.ReadIsWhatArrived | srcs/session/session.c:917-937 | After every run from two initialised streams the reader was given exactly the messages that are completed before the first number that never came into the window: which packets arrived decides it, not their order |
| InputDelivery.NotReadyIsSettled | srcs/session/stream/input_reliable_stream.c:54-105 | A receive that does not report "ready" has made nothing deliverable |
| LQueue.VLQueue.Init | lqueue.c:410-451 | An empty queue over the whole memory, or an error and no change if the length is 0 or over 16 bits |
| LQueue.VLQueue.Clear | lqueue.c:460-481 | Removes every message |
| LQueue.VLQueue.Size | lqueue.c:491-508 | The number of queued messages |
| LQueue.VLQueue.Push | lqueue.c:558-639 | Accepted, with answer 0, if and only if the length is 1 .. 65535 and the message with its field of one to three bytes fits the free bytes; -1, -5 or -2 otherwise, with the queue as it was |
| LQueue.VLQueue.ReadInternal | lqueue.c:274-377 | Front and pop give the oldest message byte for byte, or the right error and no change; reading the back goes wrong if and only if an earlier message ends exactly at the end of the buffer |
| LQueue.VLQueue.FindMessage | lqueue.c:315-345 | The walk to the message to read, and when it leaves the buffer |
| LQueue.VLQueue.Pop | lqueue.c:650-658 | Hands out and removes the oldest message; -1 for a buffer of no bytes, -3 for an empty queue, -4 if the message is longer than the buffer, with the queue as it was |
| LQueue.VLQueue.Front | lqueue.c:519-527 | Hands out the oldest message and leaves the queue as it was |
| LQueue.VLQueue.Back | lqueue.c:538-546 | The last message, if and only if no earlier one ends exactly at index bufferLength |
| LQueue.VLQueue.PopNoRead | lqueue.c:676-722 | Removes the oldest message |
| LQueue.VLQueue.FrontSize | lqueue.c:731-770 | The length of the oldest message |
| LQueue.VLQueue.Btotal | lqueue.c:779-796 | bufferLength - 1; a message fits into an empty queue of this length if and only if header and payload are at most this many bytes |
| LQueue.VLQueue.Bfree | lqueue.c:806-825 | Free space plus header and payload of all queued messages is always bufferLength - 1; the indices are equal if and only if the queue is empty; the counter cannot wrap |
| LQueue.VLQueue.CheckElementExists | lqueue.c:839-897 | 1 if and only if some queued message equals the argument, for any wrapping |
| LQueue.VLQueue.PutBytes | lqueue.c:606-627 | The copying loops put the bytes right behind what the ring spells already, wrapping anywhere |
| LQueue.VLQueue.DecodeLength | lqueue.c:138-172 | Over what push wrote gives that length and the index of the first payload byte, wherever the header lies in the ring |
| LQueue.VLQueue.GetBytes | lqueue.c:353-361 | The copying loop gives the bytes the ring spells, wrapping anywhere |
| LQueue.VLQueue.Matches | lqueue.c:874-883 | The comparing loop decides equality with the message at the index |
| LQueue.EncodeLength | lqueue.c:70-117 | The length field of one byte for 1 .. 63, two for 64 .. 16383, three up to 65535, which says that length and how many bytes follow, and -5 for anything else |
| LQueue.BackCanFault | lqueue.c:329-335 | Five calls that lead to a queue of six bytes with an earlier message that ends exactly at the end of the buffer, where reading the back goes out of bounds |
| LQueueFormat.HeaderInNumbers | lqueue.c:70-117 | The length field takes one byte for 1 .. 63, two for 64 .. 16383 and three up to 65535; its top two bits count the bytes that follow, and the rest is the length, most significant byte first |
| LQueueFormat.HeaderIsShortest | lqueue.c:70-117 | No such field says a length in less bytes, and none of the same size says it otherwise |
| LQueueFormat.FlatIsTaken | lqueue.c:558-620 | The room that messages take in the ring is the sum of their lengths and of one, two or three bytes each |
| LQueueFormat.HeaderIsSelfDescribing | lqueue.c:70-117 | A length field and its message can be told from whatever follows them |
| LQueueFormat.FlatIsInjective | lqueue.c:558-639 | The bytes in the ring determine the queued messages |
| LQueueFormat.TwoBytesEach | lqueue.c:27-28 | Every queued message takes at least two bytes, which bounds the counter |
| LQueueFifo.RunKeepsOrder | lqueue.c:558-639 | First in, first out over every run of operations: what was there and what was accepted is what left followed by what is still queued; the ring never overflows |
| LQueueFifo.PoppedIsRemoved | lqueue.c:650-658 | If messages leave only by pop the reader gets every accepted message once, byte for byte and in order |
| MicroCdr.UcdrBuffer.constructor | CDR/common.c:113-131 | A buffer over part of a memory, ready for use |
| MicroCdr.UcdrBuffer.InitBuffer | CDR/common.c:103-111 | Reinitialisation in machine byte order |
| MicroCdr.UcdrBuffer.SetOnFullBuffer | CDR/common.c:74-81 | The buffer then runs through its area and the areas the callback hands out |
| MicroCdr.UcdrBuffer.ResetBufferOffset | CDR/common.c:146-154 | Back to an offset in the current area, without error; the areas to come stay |
| MicroCdr.UcdrBuffer.AlignmentShortcutIsExact | CDR/common.c:179-186 | In every error-free state skipping alignment when data_size <= last_data_size gives the padding of the CDR rule |
| MicroCdr.UcdrBuffer.AlignTo | CDR/common.c:156-170 | Offset and position move on by the padding of the CDR rule |
| MicroCdr.UcdrBuffer.CheckFinal | CDR/common.c:35-47 | At the end of an area turns to the next one, or sets the error if there is none |
| MicroCdr.UcdrBuffer.CheckFinalArray | CDR/common.c:59-72 | How much of an array fits now, after turning to the next area if need be |
| MicroCdr.UcdrBuffer.AdvanceBuffer | CDR/common.c:188-209 | Moves over exactly `size` positions of the chain, or sets the error if there are fewer |
| MicroCdr.UcdrBuffer.ArrayToBuffer | CDR/array.c:33-58 | Writes the bytes to the next positions of the chain, in order, and nowhere else; the error if and only if there are fewer |
| MicroCdr.UcdrBuffer.BufferToArray | CDR/array.c:60-85 | Reads the bytes at the next positions of the chain, however they are cut into areas |
| MicroCdr.UcdrBuffer.SerializeByte | CDR/basic.c:22-31 | One byte at the next position |
| MicroCdr.UcdrBuffer.DeserializeByte | CDR/basic.c:142-151 | Reads it back; the value of the caller stays on an error |
| MicroCdr.UcdrBuffer.SerializeBasic | CDR/basic.c:56-123 | Padding by the CDR rule and then the value, over an area boundary if need be, and nothing else; the error if and only if there is no room; in the other byte order if no boundary cuts padding or value |
| MicroCdr.UcdrBuffer.DeserializeBasic | CDR/basic.c:176-244 | Reads the value that lies behind the padding, under the same condition; the value of the caller stays on an error |
| MicroCdr.UcdrBuffer.SerializeArray | CDR/array.c:92-108 | Padding and then all values in their byte order, for 2, 4 and 8 byte values |
| MicroCdr.UcdrBuffer.DeserializeArray | CDR/array.c:133-149 | Reads them back |
| MicroCdr.ChunkingDoesNotMatter | CDR/basic.c:176-244 | Readers over the same bytes ahead, however cut into areas, take the same value and move their offsets alike |
| MicroCdr.ChunkedWritersAgree | CDR/basic.c:56-123 | Writers over the same bytes ahead, however cut into areas, leave the same bytes there and move their offsets alike |
| SwappedBytes.WriteSwapped | CDR/basic.c:88-101 | What the byte loop for the other byte order leaves when a boundary cuts the value: one byte behind the area, and of the rest only the very last byte |
| SwappedBytes.SomeValueIsMisplaced | CDR/basic.c:88-101 | Over any memory some value of every size is not placed right by it, wherever the boundary cuts |
| SwappedBytes.ReadSwapped | CDR/basic.c:208-218 | Which bytes the reading loop fetches there |
| SwappedBytes.SomeValueIsMisread | CDR/basic.c:208-218 | A memory that holds a value over two areas from which it reads another |
| MicroCdr.WireIsAnInvolution | CDR/basic.c:153-174 | Reversing the bytes of a value twice gives the value |
| MicroCdr.WireArrayIsAnInvolution | CDR/array.c:133-149 | The same for arrays, value by value |
| MicroCdr.ArrayByte | CDR/array.c:133-149 | Where every byte of an array goes, in numbers: the values one after the other, each with its most significant byte first in big-endian order and last in the other |
| WireFormat.PaddingIsTheRule | CDR/common.c:172-177 | Padding goes to the next multiple of 2, 4 or 8, in numbers |
| WireFormat.U16Means | CDR/basic.c:56-123 | A 16-bit value stands at the next multiple of 2: first byte times 256 plus second byte in big-endian order, the other way round otherwise |
| WireFormat.U32Means | CDR/basic.c:56-123 | A 32-bit value stands at the next multiple of 4, in four bytes of the one or the other order |
| WireFormat.RepresentationMeans | srcs/serialization/xrce_types.c:2179-2209 | The encoding of a DataRepresentation is exactly: one byte 0x00, 0x02, 0x08, 0x0A or 0x0E (or the other format), and the fields of its member at their offsets, in numbers |
| WireFormat.RepresentationIsSpelled | srcs/serialization/xrce_types.c:2211-2241 | A value lies ahead of a reader if and only if these bytes stand where it is |
| WireFormat.DetailMeans | srcs/serialization/xrce_types.c:1883-1907 | The format 0, 1 or 2 as a 32-bit value, and the numbers of the member behind it |
| WireFormat.WrittenStands | srcs/serialization/xrce_types.c:1863-2209 | What a writer without an error left stands, with this meaning, at the offset where it started |
| WireExamples.TimestampBytes | srcs/serialization/xrce_types.c:1863-1871 | SeqNumberAndTimestamp(1, 2) is 00 00 00 01 00 00 00 02 in big-endian order, 01 00 00 00 02 00 00 00 in the other |
| WireExamples.DeltaBytes | srcs/serialization/xrce_types.c:1955-1964 | SampleInfoDelta(7, 8, 0x0102) is 07 08 01 02, or 07 08 02 01 |
| WireExamples.SampleBytes | srcs/serialization/xrce_types.c:2179-2209 | A whole sample with a timestamp and two bytes of data, byte by byte but for its padding |
| SampleCodec.EncodeThenDecode | srcs/serialization/xrce_types.c:2179-2241 | Decoding undoes encoding for DataRepresentation and everything in it, in both byte orders, at any two offsets equal modulo 8, over the same bytes cut into areas in any two ways: the writer fails if and only if the value does not fit, and otherwise the reader gets it back |
| SampleCodec.WrittenIsSpelled | srcs/serialization/xrce_types.c:2179-2241 | A reader anywhere else whose path has the bytes that the writer left finds the value ahead, however either path is cut into areas and whatever the size of the last value of either side was |
| CdrTokens.LayoutIsPeriodic | CDR/common.c:172-186 | The layout of values depends on the offset modulo 8 only |
| CdrTokens.TokenWritten | CDR/basic.c:56-123 | One more value: what was written before stays, and the new bytes lie behind the padding |
| CdrTokens.TokenTaken | CDR/basic.c:176-244 | A value taken where a token lies is that token, and the rest lies ahead |
| SampleCodec.SerializeUint8 | CDR/basic.c:22-31 | Adds one byte to what was written, over any buffer; it stands at the offset of the writer |
| SampleCodec.SerializeUint16 | CDR/basic.c:56-123 | Adds one 16-bit value, over any area boundary: its two bytes b0, b1 stand at the next even offset, and the value is b0 * 256 + b1 in big-endian order, b1 * 256 + b0 otherwise |
| SampleCodec.SerializeUint32 | CDR/basic.c:56-123 | Adds one 32-bit value, over any area boundary: its four bytes stand at the next multiple of 4, most significant first in big-endian order and last otherwise |
| SampleCodec.SerializeArray | CDR/array.c:87-90 | Adds a block of bytes, over any buffer |
| SampleCodec.DeserializeUint8 | CDR/basic.c:142-151 | Gives the byte that lies ahead, from any buffer |
| SampleCodec.DeserializeUint16 | CDR/basic.c:176-244 | Gives what the two bytes at the next even offset say in the byte order of the buffer, whatever they are, over any area boundary |
| SampleCodec.DeserializeUint32 | CDR/basic.c:176-244 | Gives what the four bytes at the next multiple of 4 say in the byte order of the buffer, whatever they are, over any area boundary |
| SampleCodec.DeserializeArray | CDR/array.c:128-131 | Gives the block that lies ahead, from any buffer |
| SampleCodec.SerializeSequence | CDR/sequence.c:42-53 | Adds length and bytes; with no elements it answers true even on an error |
| SampleCodec.DeserializeSequence | CDR/sequence.c:26-69 | Gives the sequence that lies ahead, or sets the error if it is longer than 512 bytes |
| SampleCodec.SerializeSeqNumberAndTimestamp | srcs/serialization/xrce_types.c:1863-1871 | Writes the value behind what was written and touches nothing else, the error if and only if it does not fit; without one there stand, by offset and number: the sequence number and then the time offset, 4 bytes each from the next multiple of 4 |
| SampleCodec.DeserializeSeqNumberAndTimestamp | srcs/serialization/xrce_types.c:1873-1881 | Gives the value whose encoding lies ahead, and leaves what follows; whatever bytes lie there, without an error they are those of the value it gives: the sequence number and then the time offset, 4 bytes each from the next multiple of 4 |
| SampleCodec.SerializeSampleInfoDetail | srcs/serialization/xrce_types.c:1883-1907 | Writes the value behind what was written and touches nothing else, the error if and only if it does not fit; without one there stand, by offset and number: the format 0, 1 or 2 and behind it the sequence number, the time offset, or both, 4 bytes each; any other format alone |
| SampleCodec.DeserializeSampleInfoDetail | srcs/serialization/xrce_types.c:1909-1933 | Gives the value whose encoding lies ahead, and leaves what follows; whatever bytes lie there, without an error they are those of the value it gives: the format 0, 1 or 2 and behind it the sequence number, the time offset, or both, 4 bytes each; any other format alone |
| SampleCodec.SerializeSampleInfo | srcs/serialization/xrce_types.c:1935-1943 | Writes the value behind what was written and touches nothing else, the error if and only if it does not fit; without one there stand, by offset and number: the state in one byte and the detail |
| SampleCodec.DeserializeSampleInfo | srcs/serialization/xrce_types.c:1945-1953 | Gives the value whose encoding lies ahead, and leaves what follows; whatever bytes lie there, without an error they are those of the value it gives: the state in one byte and the detail |
| SampleCodec.SerializeSampleInfoDelta | srcs/serialization/xrce_types.c:1955-1964 | Writes the value behind what was written and touches nothing else, the error if and only if it does not fit; without one there stand, by offset and number: the state and the number delta in one byte each, the time delta in 2 bytes at an even offset |
| SampleCodec.DeserializeSampleInfoDelta | srcs/serialization/xrce_types.c:1966-1975 | Gives the value whose encoding lies ahead, and leaves what follows; whatever bytes lie there, without an error they are those of the value it gives: the state and the number delta in one byte each, the time delta in 2 bytes at an even offset |
| SampleCodec.SerializeSampleData | srcs/serialization/xrce_types.c:1977-1982 | Writes the value behind what was written and touches nothing else, the error if and only if it does not fit; without one there stand, by offset and number: the length in 4 bytes and the bytes |
| SampleCodec.DeserializeSampleData | srcs/serialization/xrce_types.c:1984-1989 | Gives the value whose encoding lies ahead, and leaves what follows; whatever bytes lie there, without an error they are those of the value it gives: the length in 4 bytes and the bytes |
| SampleCodec.SerializeSampleDataSeq | srcs/serialization/xrce_types.c:1991-2001 | Writes the value behind what was written and touches nothing else, the error if and only if it does not fit; without one there stand, by offset and number: how many there are in 4 bytes, and the elements one after the other |
| SampleCodec.DeserializeSampleDataSeq | srcs/serialization/xrce_types.c:2003-2021 | Gives the value whose encoding lies ahead, and leaves what follows; whatever bytes lie there, without an error they are those of the value it gives: how many there are in 4 bytes, and the elements one after the other; more than 8 elements set the error |
| SampleCodec.SerializeSample | srcs/serialization/xrce_types.c:2023-2031 | Writes the value behind what was written and touches nothing else, the error if and only if it does not fit; without one there stand, by offset and number: the info and the data |
| SampleCodec.DeserializeSample | srcs/serialization/xrce_types.c:2033-2041 | Gives the value whose encoding lies ahead, and leaves what follows; whatever bytes lie there, without an error they are those of the value it gives: the info and the data |
| SampleCodec.SerializeSampleSeq | srcs/serialization/xrce_types.c:2043-2053 | Writes the value behind what was written and touches nothing else, the error if and only if it does not fit; without one there stand, by offset and number: how many there are in 4 bytes, and the samples one after the other |
| SampleCodec.DeserializeSampleSeq | srcs/serialization/xrce_types.c:2055-2073 | Gives the value whose encoding lies ahead, and leaves what follows; whatever bytes lie there, without an error they are those of the value it gives: how many there are in 4 bytes, and the samples one after the other; more than 8 elements set the error |
| SampleCodec.SerializeSampleDelta | srcs/serialization/xrce_types.c:2075-2083 | Writes the value behind what was written and touches nothing else, the error if and only if it does not fit; without one there stand, by offset and number: the info delta and the data |
| SampleCodec.DeserializeSampleDelta | srcs/serialization/xrce_types.c:2085-2093 | Gives the value whose encoding lies ahead, and leaves what follows; whatever bytes lie there, without an error they are those of the value it gives: the info delta and the data |
| SampleCodec.SerializeSampleDeltaSequence | srcs/serialization/xrce_types.c:2095-2105 | Writes the value behind what was written and touches nothing else, the error if and only if it does not fit; without one there stand, by offset and number: how many there are in 4 bytes, and the deltas one after the other |
| SampleCodec.DeserializeSampleDeltaSequence | srcs/serialization/xrce_types.c:2107-2125 | Gives the value whose encoding lies ahead, and leaves what follows; whatever bytes lie there, without an error they are those of the value it gives: how many there are in 4 bytes, and the deltas one after the other; more than 8 elements set the error |
| SampleCodec.SerializePackedSamples | srcs/serialization/xrce_types.c:2127-2135 | Writes the value behind what was written and touches nothing else, the error if and only if it does not fit; without one there stand, by offset and number: the info and the sequence of deltas |
| SampleCodec.DeserializePackedSamples | srcs/serialization/xrce_types.c:2137-2145 | Gives the value whose encoding lies ahead, and leaves what follows; whatever bytes lie there, without an error they are those of the value it gives: the info and the sequence of deltas |
| SampleCodec.SerializeSamplePackedSeq | srcs/serialization/xrce_types.c:2147-2157 | Writes the value behind what was written and touches nothing else, the error if and only if it does not fit; without one there stand, by offset and number: how many there are in 4 bytes, and the packed samples one after the other |
| SampleCodec.DeserializeSamplePackedSeq | srcs/serialization/xrce_types.c:2159-2177 | Gives the value whose encoding lies ahead, and leaves what follows; whatever bytes lie there, without an error they are those of the value it gives: how many there are in 4 bytes, and the packed samples one after the other; more than 8 elements set the error |
| SampleCodec.SerializeDataRepresentation | srcs/serialization/xrce_types.c:2179-2209 | Writes the value behind what was written and touches nothing else, the error if and only if it does not fit; without one there stand, by offset and number: one byte 0x00, 0x02, 0x08, 0x0A or 0x0E for the member, and the member |
| SampleCodec.DeserializeDataRepresentation | srcs/serialization/xrce_types.c:2211-2241 | Gives the value whose encoding lies ahead, and leaves what follows; whatever bytes lie there, without an error they are those of the value it gives: one byte 0x00, 0x02, 0x08, 0x0A or 0x0E for the member, and the member |

## Left out

- Message and submessage headers are stubs in this tree (srcs/serialization/xrce_header.c:13-29, srcs/session/submessage.c:13-22): packets carry a number and bytes, and the kind of a fragment is a function of the message, like OnGetFragmentationInfo.
- That a receiver sees in the body of a slot the kind that its first writer would have put there is an assumption (`ProtocolTags.Fits`), because the FRAGMENT subheaders are stubs. That what is sent then consists of whole chains, as a sending step asks (`FragmentChains.Chained`), is proved from the writes (`ProtocolTags.SendIsPossible`).
- Session handling, stream ids and the other submessages of srcs/session/session.c; the file is not in the build, and only its step order is used. A reader takes all contents of a buffer, where the source cuts them into submessages by their stubbed headers.
- Heartbeat timing (uxr_update_output_stream_heartbeat_timestamp), clocks, locks, transports and other hardware: the calls of a stream or a queue are atomic.
- Best-effort streams, object and stream ids, entity creation, matching.c: plumbing or finite.
- Payloads with ObjectId or BaseObjectRequest: writer and reader differ on purpose.
- Sequences of elements wider than one byte (CDR/sequence.c): the same length header in front of the arrays modelled here.
- Strings (CDR/string.c), float and double: bytes as any other value of their size.
- The 4-byte length form of the queue (compiled out by lqueue.h:4), lqueue_popPtr_noremove (its pointer ignores wrapping) and NULL arguments.
- The callback is modelled by the list of its answers, collected from the ring before the first write. A reader that goes on past the end of its chain, or a writer past its grant, gets an error; that the reader gets the next message instead when that is already stored, and the writer always another area, is proved of the callbacks only (`InputLimits.GoPastTheChain`, `OutputLimits.GoPastTheGrant`).
- InputStream.InputReliableStream.Receive: requires that the last delivered chain was advanced over, as the delivery loop of srcs/session/session.c leaves it; with slots of that chain still occupied the window has two kinds of full slots. It also requires that the walk along the fragments ends.
- InputStream.InputReliableStream.NextBufferAvailable: requires the same, and that the fragments of the chain are longer than what is skipped.
- InputStream.InputReliableStream.ComputeAcknack: requires that less than 31 numbers from the first missing one on are announced, because the source shifts an int by their distance.
- MicroCdr.UcdrBuffer.SetOnFullBuffer: requires a buffer in the machine's byte order, because the first call of the callback changes any other to it.
- MicroCdr.UcdrBuffer.ResetBufferOffset: requires that the areas to come do not overlap the one it goes back in.
- MicroCdr.UcdrBuffer.SerializeBasic: requires that a value crosses at most one area boundary and fits behind it, because the source looks at one next area only and not at its length; in the other byte order, that the boundary cuts neither padding nor value.
- MicroCdr.UcdrBuffer.DeserializeBasic: requires the same.
- MicroCdr.UcdrBuffer.SerializeArray: requires a single area for the other byte order, where the source writes value by value.
- MicroCdr.UcdrBuffer.DeserializeArray: requires the same.
- SampleCodec.SerializeUint16: requires, over a chain, areas of at least 4 bytes with room for all tokens to come, for the reason given at SerializeBasic; so do the writers built on it.
- SampleCodec.DeserializeUint16: requires, over a chain, areas of at least 4 bytes and that the expected tokens do lie ahead, for the same reason; so do the readers built on it.
- SampleCodec.DeserializeDataRepresentation: when it fails only the buffer is described, not the partly filled output.
- What stands in the padding of a whole encoding is not stated; every single value leaves it as it was (`MicroCdr.UcdrBuffer.SerializeBasic`).
- MicroCdr.UcdrBuffer.BufferToArray: on an error only the buffer is described, not the partly filled array.
- SampleCodec.EncodeThenDecode: the union members are tied to their formats by the type; a struct whose format selects a member that was not set is not modelled.
- uxr_reset_input_reliable_stream and uxr_reset_output_reliable_stream on streams already in use: only as part of initialisation.
