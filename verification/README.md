# Verified models of the PSA VAN/CAN bridge

A Dafny model of the parts of the bridge that carry state or arithmetic, with proofs about them.
`dafny verify dfyconfig.toml` checks everything.

## What is modelled

- **ISO-TP transport** (`IsoTp`, `IsoTpTransfer`, `IsoTpFlowControl`, `IsoTpEndpoint`, `IsoTpLink`). An endpoint is a
  class with the code's buffers, moving transmit pointer and records; every method is proved equal to a function on
  the endpoint's state. The driver is a list of answers to the frames offered to it. `IsoTpTransfer` treats one
  direction over any run, `IsoTpFlowControl` what the peer asks of it, `IsoTpEndpoint` both directions of one
  endpoint, and `IsoTpLink` two matched endpoints as a state machine over polls and deliveries in any order, with
  drivers that refuse what they like. Time is a parameter; the 32-bit difference of two times wraps as in the code.
- **VAN CRC and frames** (`VanCrc`, `VanBurst`, `VanFrame`, `VanAcknowledge`). The reference is the division of a bit
  string by the generator. The bitwise and the table-driven loops are proved against it, then what the check detects.
  Frames are followed down to bus slices and back, including the receiver's decision to acknowledge.
- **Periodic scheduler** (`Scheduler`, `LazyGeneration`, `ImmediateSends`, `SendSlots`). A pass over the entries may
  visit them in any order. A run mixes ticks, immediate sends and messages added from elsewhere; `made` is what each
  handler would generate at that moment.
- **mDNS responder** (`MdnsResponder`, `MdnsQueue`, `MdnsProbing`, `MdnsCourse`, `MdnsStates`, `MdnsName`,
  `MdnsNameReading`, `MdnsHostNames`, `MdnsTxt`, `MdnsTieBreak`). Timer task and service task are steps on one shared
  state. Packets are told apart by numbers that are never reused. A packet carries the history of its transmissions
  and what it was made as; the code has neither, and no step of the model looks at them.
- **Two trackers** (`RadioScroll`, `FuelRefill`, `FuelSampling`, `FuelHistory`). Scroll counter with overflow flags,
  and fuel samples, histories and failure-atomic saving. A save is an abstract step that succeeds or fails; the loaded
  state is a parameter.

`Bytes` and `Wrappers` hold the types the modules share. The class of each component is proved against a specification
function of its state (`Model()` before and after); the properties are lemmas about these functions.

## Findings

- A receiver that still waits for the rest of an older ISO-TP message takes over the consecutive frames of a newer one
  whose first frame was lost (`IsoTpTransfer.StaleReassemblyMixesMessages`). Exactly the receivers in that state can
  be misled (`IsoTpTransfer.HarmlessIffNotWaiting`).
- A refused single frame, last consecutive frame or flow control of ISO-TP is never offered again, while all other
  frames are (`IsoTpTransfer.RefusedLastFrameLost`, `IsoTpLink.OutcomeIsExactIff`).
- ISO-TP blocks are cut short at the wrap of the sequence number unless the block size divides 16
  (`IsoTpTransfer.BlocksExactIffDivides16`).
- Answering a first frame overwrites the block parameters of the endpoint's own message: it then goes out in one
  block, whatever size the peer asked for (`IsoTpEndpoint.FirstFrameEndsBlocks`).
- `InternalSendFrame` loses the low bit of a last byte that is odd; check sequences never are
  (`VanFrame.DecodesExactlyIffEven`). A comment in the receiver speaks of 28 data bytes, the command buffer holds 27.
- An immediate send looks a message up by the low 16 bits of its identifier, so a longer identifier sends what
  somebody else has stored, or nothing (`ImmediateSends.ImmediateExactly`).
- A full action queue lets mDNS packets overtake each other when a later hand-over of the same timer run succeeds, and
  only then (`MdnsQueue.AlwaysConsistentIff`). Exactly then the service task, working off what is pending, skips the
  transmission of a queued packet (`MdnsQueue.SkipsIffDisorderly`); the timer hands it over again
  (`MdnsQueue.FullQueueSkipsLivePacket`).
- A complete four-part mDNS name followed by a pointer to an empty name is marked invalid although no label follows
  (`MdnsNameReading.CompleteNameMarked`); the result for every other name that can be read depends on its labels alone
  (`MdnsNameReading.NameIsFoldOfLabels`).
- An mDNS name with a subtype marker behind its domain is valid (`MdnsNameReading.MarkerBehindDomain`).
- A received TXT record of one byte counts as empty, not as malformed, whatever that byte announces
  (`MdnsTxt.CountExactly`).
- Two TXT records of one byte each break the tie-break as soon as some host has an item: hosts with a single item of
  neither key nor value both win, and against a host without items such a host wins while the other calls it the same.
  In every other case the verdicts are opposite (`MdnsTieBreak.TxtTieBreakDecides`).
- When a refill is saved and its checkpoint is not, a second try one percent off records the same refill again
  (`FuelHistory.RetryAddsAgainIff`).
- The fuel check for the ignition going off is never reached (`FuelHistory.OffCheckNeverRuns`).

## Model

| member | source | states |
|---|---|---|
| `IsoTp.IsoTpFrame.Send` | src/Protocol/IsoTpFrame.cpp:147-162 | A payload is accepted only when the transmit half is idle or in error, and then it is pending from its first byte; otherwise nothing changes |
| `IsoTp.IsoTpFrame.Process` | src/Protocol/IsoTpFrame.cpp:403-561 | One poll takes the whole endpoint to the state the functional sender predicts, for every driver that refuses frames: single frame, first frame, timeout while waiting, or a burst of consecutive frames up to a block boundary |
| `IsoTp.IsoTpFrame.SendBlockCf` | src/Protocol/IsoTpFrame.cpp:484-530 | One round of the burst: an accepted frame moves the pointer by 7 and the sequence number by 1 modulo 16, a refused one leaves the transmit half as it was |
| `IsoTp.IsoTpFrame.RcvFc` | src/Protocol/IsoTpFrame.cpp:164-223 | Flow control acts only on a waiting sender. While the first one is missing every flow control sets the block size to byte 1 and the separation time to byte 2, reserved values read as 127; a continue resumes, a wait with fewer than nine before it keeps waiting, and anything else gives up |
| `IsoTp.IsoTpFrame.RcvCf` | src/Protocol/IsoTpFrame.cpp:265-323 | A consecutive frame is stored only in state WAIT_DATA, in time and in sequence, at 6 + 7 * (sequence number - 1) |
| `IsoTp.IsoTpFrame.RcvFf` | src/Protocol/IsoTpFrame.cpp:239-262 | A first frame starts a new reassembly with its length and six bytes, answers with flow control, and takes the transmit half's block parameters away |
| `IsoTp.IsoTpFrame.SetIds` | src/Protocol/IsoTpFrame.cpp:563-571 | New identifiers put both halves to rest and change nothing else |
| `IsoTp.IsoTpFrame.Receive` | src/Protocol/IsoTpFrame.cpp:325-401 | One received frame takes the whole endpoint, transmit half included, to the predicted state; frames for other identifiers change nothing |
| `IsoTpTransfer.FramesCarryPayload` | src/Protocol/IsoTpFrame.cpp:62-121 | The frames of a segmentation carry every payload byte once and in order, and nothing else |
| `IsoTpTransfer.SenderEmitsSegmentation` | src/Protocol/IsoTpFrame.cpp:403-561 | In every run of polls and flow controls, with any refusals, what goes out is a prefix of the segmentation of the payload; a run that ends without giving up has sent all of it if and only if the driver takes the first offer of the last frame, and otherwise all but that frame |
| `IsoTpTransfer.RefusedLastFrameLost` | src/Protocol/IsoTpFrame.cpp:526-532 | A run where the last frame is refused once: the sender is idle with only the first frame sent, although every later offer would be taken |
| `IsoTpTransfer.BlockLeftFromStart` | src/Protocol/IsoTpFrame.cpp:484-530 | From a block start exactly min(BS, frames up to the wrap) frames go out, hence at most min(BS, 16) |
| `IsoTpTransfer.BlocksExactIffDivides16` | src/Protocol/IsoTpFrame.cpp:484-530 | All blocks have the requested size if and only if the size divides 16 |
| `IsoTpTransfer.BlocksAreBounded` | src/Protocol/IsoTpFrame.cpp:164-223 | In every run at most min(BS, 16) consecutive frames go out between two flow controls, the last one included; a block that is not the last runs to its size or to the wrap, whichever comes first, so it is exact when BS divides 16 |
| `IsoTpFlowControl.FlowControlByStatus` | src/Protocol/IsoTpFrame.cpp:164-223 | By its status alone: a continue resumes a waiting message, a wait changes nothing but for the tenth, which ends it as every other status does, and outside a wait nothing happens; nothing is sent and nothing pending is lost |
| `IsoTpFlowControl.ParametersOfFirstContinue` | src/Protocol/IsoTpFrame.cpp:172-191 | In every run, while consecutive frames are being sent, block size and separation time are bytes 1 and 2 (reserved times read as 127) of the one continue that ended the first wait; later flow controls change neither |
| `IsoTpFlowControl.BlocksAsAskedFor` | src/Protocol/IsoTpFrame.cpp:164-223 | In every run, with k frames out, a block has at most as many frames as byte 1 of that continue asks for and at most 16, and a block that is not the last has exactly the smaller of that and 16 - (k - 1) mod 16; if 0 is asked for the rest is one block |
| `IsoTpFlowControl.TenthWaitGivesUp` | src/Protocol/IsoTpFrame.cpp:199-211 | In every run a wait sends nothing and ends the message exactly if it is the tenth one heard, counted over the whole message |
| `IsoTpFlowControl.GivesUpExactly` | src/Protocol/IsoTpFrame.cpp:164-223 | A message is given up exactly by a poll 250 ms or more after the first frame while its first flow control is missing, by a status that is neither continue nor wait, or by the tenth wait |
| `IsoTpFlowControl.FirstWaitExactly` | src/Protocol/IsoTpFrame.cpp:434-482 | From the poll that sends the first frame on, under any polls and waits: nothing else goes out, and the message is alive exactly if each poll came within 250 ms of that one and at most nine waits came in |
| `IsoTpEndpoint.OneControlPerFirstFrame` | src/Protocol/IsoTpFrame.cpp:20-50 | In every run of payloads, polls and received frames an endpoint sends exactly one flow control for each first frame it hears, whatever it sends itself, and each consists of the bytes 0x30, 0, 0 |
| `IsoTpEndpoint.FirstFrameEndsBlocks` | src/Protocol/IsoTpFrame.cpp:20-50 | A first frame heard in the middle of a message of one's own wipes out the block size the peer asked for: whatever follows, the first poll that finds the message sending sends all that is left |
| `IsoTpTransfer.FinishedIffInSuccession` | src/Protocol/IsoTpFrame.cpp:239-323 | Once the first frame of a segmented message arrives, whatever the receive half was doing, the message is finished if and only if its frames are delivered one directly after another, each in time, and nothing late follows: any frame lost, repeated or late in between prevents it; what is finished is exactly the payload |
| `IsoTpTransfer.NeverWrongData` | src/Protocol/IsoTpFrame.cpp:239-323 | On an order-preserving link that may lose, repeat or delay frames, a receive half that is not waiting for the rest of another message, or gets the first frame first, ends idle, waiting, finished with exactly the payload delivered in succession, or, if no first frame arrived, with the finished message it had |
| `IsoTpTransfer.StaleReceiverMisled` | src/Protocol/IsoTpFrame.cpp:265-323 | Every receive half that waits for the rest of a message can be led to finish with a mixture of two messages |
| `IsoTpTransfer.HarmlessIffNotWaiting` | src/Protocol/IsoTpFrame.cpp:265-323 | A receive half never ends with wrong data, whatever arrives in order of whatever message, if and only if it is not in state WAIT_DATA at the start |
| `IsoTpTransfer.StaleReassemblyMixesMessages` | src/Protocol/IsoTpFrame.cpp:265-323 | Such a receive half does arise: with the rest of an older message and the first frame of a newer one lost, it finishes with a mixture of both |
| `IsoTpLink.StepAdvances` | src/Protocol/IsoTpFrame.cpp:325-561 | Every enabled, timely step of the link changes nothing, brings the transfer exactly one step closer to its end, or uses up a refusal, for every pattern of refusals by both drivers |
| `IsoTpLink.SomeStepAdvances` | src/Protocol/IsoTpFrame.cpp:325-561 | Until the link is at rest, some step makes progress |
| `IsoTpLink.TransferIsExact` | src/Protocol/IsoTpFrame.cpp:147-561 | At every point of every timely interleaving, for every payload of at most 128 bytes and any refusals by both drivers, a link at rest has the receiver FINISHED with length and bytes of the payload, across the wrap of the sequence number, if the last frame and the flow control are taken when first offered; otherwise the receiver is as it was (single frame) or waits for what was refused |
| `IsoTpLink.RestForGood` | src/Protocol/IsoTpFrame.cpp:325-561 | A link at rest stays at rest: what has not arrived never does |
| `IsoTpLink.OutcomeIsExactIff` | src/Protocol/IsoTpFrame.cpp:443-532 | At rest the receiver holds the payload of a segmented message if and only if neither its last frame nor its flow control was refused |
| `VanCrc.Crc15` | components/esp32_ulp_van_tx-main/src/UlpVanTx.cpp:401-430 | The bitwise CRC is the inverted remainder of the bit string, shifted left once |
| `VanCrc.DivideLinear` | components/esp32_ulp_van_tx-main/src/UlpVanTx.cpp:401-430 | Division is linear: the remainder of a sum is the sum of the remainders |
| `VanCrc.TableEntry` | src/Helpers/VanCrcCalculator.hpp:10-44 | Each of the 256 table entries is the division of its index, whatever its bit 15 |
| `VanCrc.TableStepIsByteStep` | src/Helpers/VanCrcCalculator.cpp:23-28 | A table step on a register with any bit 15 is the division by eight bits of its low 15 bits |
| `VanCrc.CalculateCrc` | src/Helpers/VanCrcCalculator.cpp:19-34 | For every byte string the table-driven CRC is the same inverted remainder as the bitwise one |
| `VanCrc.IsCrcOk` | src/Helpers/VanCrcCalculator.cpp:3-17 | Accepts exactly the messages of three bytes or more whose last two bytes are the check sequence of the rest, without a leading start byte |
| `VanBurst.AcceptedDividesToZero` | src/Helpers/VanCrcCalculator.cpp:3-17 | The bits of an accepted message, check sequence inverted back, leave remainder zero, and its last bit is zero |
| `VanBurst.WindowDetermined` | components/esp32_ulp_van_tx-main/src/UlpVanTx.cpp:401-430 | Up to 15 bits are determined by the remainders before and after them |
| `VanBurst.StartNotForged` | src/Helpers/VanCrcCalculator.cpp:3-34 | No corruption within 15 consecutive bits makes a start byte appear or disappear in a message that stays accepted |
| `VanBurst.BurstRejected` | src/Helpers/VanCrcCalculator.cpp:3-34 | No corruption of an accepted message confined to 15 consecutive bits, anywhere in it, is accepted: start byte, data or check sequence |
| `VanBurst.CheckBytesRejected` | src/Helpers/VanCrcCalculator.cpp:3-17 | No change to the two check bytes alone is accepted |
| `VanFrame.UlpVanTx.SetAckIdentifier` | components/esp32_ulp_van_tx-main/src/UlpVanTx.cpp:350-368 | Identifiers above 12 bits are refused and change nothing; otherwise the comparison word is the expanded identifier, or the value that never matches |
| `VanFrame.UlpVanTx.InternalSendFrame` | components/esp32_ulp_van_tx-main/src/UlpVanTx.cpp:432-460 | The prepared command, read as the transmitter reads it, is the expansion of the frame with its end-of-data violation and the recessive end of frame; later words stay |
| `VanFrame.UlpVanTx.SendNormalFrame` | components/esp32_ulp_van_tx-main/src/UlpVanTx.cpp:462-492 | Read off the slices, four of each five: start byte 0x0E, the 12 identifier bits, COM 1000 or 1100 as asked for, the data bytes in order with their highest bit first, two bytes of check sequence, and ten recessive slices |
| `VanFrame.UlpVanTx.SendReplyRequestFrame` | components/esp32_ulp_van_tx-main/src/UlpVanTx.cpp:494-515 | The same with COM 1111 and no data |
| `VanFrame.FrameCarries` | components/esp32_ulp_van_tx-main/src/UlpVanTx.cpp:462-515 | Every built frame carries header, data and recessive end in these places, bit by bit |
| `VanFrame.OnlyLastGroupViolates` | components/esp32_ulp_van_tx-main/src/UlpVanTx.cpp:432-460 | Exactly the last group of five slices of a frame ends in two equal slices, and they are dominant |
| `VanFrame.EmissionDecodes` | components/esp32_ulp_van_tx-main/src/UlpVanTx.cpp:432-460 | Decoding groups of five until the first violation gives back every frame but for the low bit of its last byte, whatever follows |
| `VanFrame.DecodesExactlyIffEven` | components/esp32_ulp_van_tx-main/src/UlpVanTx.cpp:432-460 | The frame itself comes back if and only if the low bit of its last byte is clear |
| `VanFrame.UniquelyDecodable` | components/esp32_ulp_van_tx-main/src/UlpVanTx.cpp:432-460 | No frame looks like another one or like the beginning of another one |
| `VanFrame.BuiltFrameArrives` | components/esp32_ulp_van_tx-main/src/UlpVanTx.cpp:462-515 | Every built frame passes the CRC check, is decoded exactly, and ends its data at group 2n + 4 after COM |
| `VanFrame.SampledIdentifier` | components/esp32_ulp_van_tx-main/src/UlpVanTx.cpp:111-124 | The register that doubles and adds 15 samples ends with the expanded identifier |
| `VanFrame.AckWordInjective` | components/esp32_ulp_van_tx-main/src/UlpVanTx.cpp:350-368 | Expanded identifiers are equal if and only if the 12 identifier bits are, and none equals the disabled value |
| `VanFrame.AcknowledgedExactly` | components/esp32_ulp_van_tx-main/src/UlpVanTx.cpp:111-223 | A built frame is acknowledged if and only if acknowledging is enabled, the frame asks for it and the identifiers are equal |
| `VanAcknowledge.SampleInjective` | components/esp32_ulp_van_tx-main/src/UlpVanTx.cpp:111-124 | Of 15 samples the register keeps each apart: different slices give different words, and none gives the disabled value |
| `VanAcknowledge.AcknowledgesExactly` | components/esp32_ulp_van_tx-main/src/UlpVanTx.cpp:111-223 | Whatever is on the bus: it is acknowledged if and only if acknowledging is enabled, slices 10 to 24 are the configured identifier with the opposite of every fourth bit, COM is 11001, and the first group behind COM that ends in two equal slices is an even one from 4 to 60 and ends in two dominant slices |
| `Scheduler.MessageScheduler.HasDueMessages` | src/Protocol/MessageScheduler.hpp:37-54 | True exactly when some entry is due |
| `Scheduler.MessageScheduler.ShouldGenerateMessage` | src/Protocol/MessageScheduler.hpp:56-69 | False exactly for a known entry that is not due |
| `Scheduler.MessageScheduler.AddOrUpdateMessage` | src/Protocol/MessageScheduler.hpp:71-104 | The entry holds the message, data and all fields, its length cut to 32 if the entry was known, and its period; a known entry keeps its due time, a new one is due after the offset; other entries stay |
| `Scheduler.MessageScheduler.Update` | src/Protocol/MessageScheduler.hpp:106-143 | One pass in any order of the container sends each due and active entry once and moves every due time past now |
| `Scheduler.MessageScheduler.SendImmedateMessage` | src/Protocol/MessageScheduler.hpp:145-158 | A known entry is sent as stored; only its time of last sending changes |
| `LazyGeneration.ProcessGenerators` | src/Helpers/MessageHandlerTupleTemplates.hpp:52-86 | The handlers in turn, skipping those whose message is not due, leave the schedule the functional model predicts |
| `LazyGeneration.SendImmediateMessage` | src/Protocol/AEE2010/AEE2010ComfortBus.cpp:236-250 | An immediate send generates the message again before it goes out |
| `LazyGeneration.LazyIsInvisible` | src/Helpers/MessageHandlerTupleTemplates.hpp:52-72 | In every run of ticks, immediate sends and messages added from elsewhere, each event sends exactly what it would if every handler generated on every tick |
| `LazyGeneration.SentIsFresh` | src/Helpers/MessageHandlerTupleTemplates.hpp:52-72 | Every handler message a tick sends is active and was generated in that very tick, and it goes out with every field as generated, its length cut to 32 where it replaces a known message |
| `LazyGeneration.StoredIsLatestAdded` | src/Protocol/MessageScheduler.hpp:71-104 | In every run what is stored for an identifier without a handler is the latest message added for it, field by field, and nothing is stored before the first one |
| `LazyGeneration.SentIsStored` | src/Protocol/MessageScheduler.hpp:117-127 | What a tick sends is active and is what is stored afterwards |
| `ImmediateSends.ImmediateExactly` | src/Protocol/AEE2010/AEE2010ComfortBus.cpp:236-250 | An immediate send of a 16-bit identifier puts out what each of its handlers has just made, in turn; a longer identifier is cut to 16 bits, and then every message put out is the one stored under those, or none is if there is none |
| `ImmediateSends.RemembersLastTransmission` | src/Protocol/MessageScheduler.hpp:106-158 | In every run of ticks, immediate sends and additions the time an entry remembers is that of the latest event that put its message on the bus |
| `LazyGeneration.StoredSendIsStale` | src/Protocol/MessageScheduler.hpp:145-158 | Sending a handler message from store, without generating it, does show the difference |
| `SendSlots.DueKeepsToGrid` | src/Protocol/MessageScheduler.hpp:129-134 | Over any run the due time is the first point after the latest tick on the grid F, F + P, F + 2P, ...; immediate sends and updates never shift it |
| `SendSlots.SentOncePerSlot` | src/Protocol/MessageScheduler.hpp:106-143 | A tick sends the message if and only if F has been reached and no earlier tick fell into the same slot |
| `SendSlots.SendsBounded` | src/Protocol/MessageScheduler.hpp:106-143 | Between a and b there are at most slot(b) - slot(a) + 1 sends |
| `SendSlots.SentOnEveryTick` | src/Protocol/MessageScheduler.hpp:135-138 | A message without a period goes out on every tick from its first due time on |
| `SendSlots.EntersWithOffset` | src/Protocol/MessageScheduler.hpp:91-99 | A message that enters the schedule at time t is first due at t plus its offset, and at t plus its period if it is sent by the tick that brings it |
| `SendSlots.SentFromOffsetOn` | src/Protocol/MessageScheduler.hpp:71-143 | From an empty schedule: a message first brought at time t goes out on exactly one tick, the first, in each slot of the grid t + offset, t + offset + period, ... |
| `SendSlots.SentOnEntry` | src/Protocol/MessageScheduler.hpp:71-143 | The tick that brings a message sends it if and only if it has no offset |
| `MdnsResponder.MdnsService.SendAfter` | components/mdns/mdns_send.c:1628-1646 | The packet is linked in behind every packet due no later than itself |
| `MdnsResponder.MdnsService.ClearTxQueueIf` | components/mdns/mdns_send.c:1667-1687 | Exactly the packets of the interface go, the others stay in order |
| `MdnsResponder.MdnsService.SendPackets` | components/mdns/mdns_send.c:1714-1746 | From the first unmarked packet on, overdue packets are marked and handed over one by one, for every pattern of full queues and failed allocations |
| `MdnsResponder.MdnsService.SendPacket` | components/mdns/mdns_send.c:1820-1848 | Only a marked packet at the head is sent; it is then rescheduled, replaced or freed as the interface state says |
| `MdnsResponder.MdnsService.ScheduleTxPacket` | components/mdns/mdns_pcb.c:211-259 | State by state: a probe goes on and is due again in 250 ms, the third is replaced by the announcement due in 250 ms and clears the failed probes, or is sent again if that cannot be built; an announcement is due again in 1000 ms, and the third leaves the interface running |
| `MdnsResponder.MdnsService.InitPcbProbe` | components/mdns/mdns_pcb.c:339-424 | The interface queue is cleared, and a new probe packet is due after the start delay, unless there is no host name |
| `MdnsResponder.MdnsService.PcbAnnounce` | components/mdns/mdns_pcb.c:43-84 | Probing starts over, a running announcement restarts, a running interface announces at once |
| `MdnsQueue.WithoutConsistent` | components/mdns/mdns_send.c:1778-1818 | Dropping any packets leaves a consistent queue: what stays of the handed-over prefix is the new prefix |
| `MdnsQueue.HandedOverConsistentIff` | components/mdns/mdns_send.c:1714-1746 | A run of the timer keeps a consistent queue consistent if and only if, among the attempts it makes, none succeeds after one that found the action queue full |
| `MdnsQueue.StepConsistentIff` | components/mdns/mdns_send.c:1628-1848 | Every step of timer task, service task and requests keeps the queue consistent, a run of the timer exactly under that condition |
| `MdnsQueue.AlwaysConsistentIff` | components/mdns/mdns_send.c:1628-1848 | All states of a run are consistent (the queue sorted, the marked packets a prefix of it, the pending transmissions of live packets that prefix in order) if and only if no run of the timer in it hands over a packet after it found the action queue full |
| `MdnsQueue.NeverSkipped` | components/mdns/mdns_send.c:1837-1848 | In such a run a transmission finds its packet at the head if and only if the packet is still queued |
| `MdnsQueue.SkipsIffDisorderly` | components/mdns/mdns_send.c:1714-1848 | After a run of the timer from a consistent state, the service task working off what is pending skips the transmission of a queued packet if and only if that run handed one over after it found the action queue full |
| `MdnsQueue.FullQueueSkipsLivePacket` | components/mdns/mdns_send.c:1728-1741 | A run from the start where the condition fails: two answers are due, the first is not handed over and the second is, its transmission is skipped although it is queued, and the next run of the timer hands both over |
| `MdnsProbing.ProbeInitStartsOver` | components/mdns/mdns_pcb.c:339-424 | After initialising, the interface has one packet, a probe with no transmission behind it |
| `MdnsProbing.AlwaysProbing` | components/mdns/mdns_pcb.c:211-259 | In every reachable state an interface that sends probes has at most one packet queued |
| `MdnsProbing.AnnouncedAfterThreeProbes` | components/mdns/mdns_pcb.c:211-259 | An interface goes from probing to announcing only by sending its probe, and that probe has then been sent at least three times, each more than 250 ms after the time before |
| `MdnsCourse.StepOnCourse` | components/mdns/mdns_pcb.c:211-259 | Whatever step an undisturbed interface sees, it stays where it is in its course unless its packet is transmitted, and then moves on by one |
| `MdnsCourse.CourseIsExact` | components/mdns/mdns_pcb.c:211-259 | In every run, from the start of probing on and as long as nobody interferes with the interface: it sends its probe exactly three times, then its announcement exactly three times, then runs with nothing queued; the transmissions are due 250, 250, 250, 1000 and 1000 ms after the one before |
| `MdnsCourse.RoundTransmits` | components/mdns/mdns_send.c:1714-1848 | Waiting long enough, a run of the timer and working off what is pending transmit the packet of an interface on its course exactly once |
| `MdnsCourse.ReachesRunning` | components/mdns/mdns_pcb.c:211-259 | Six such rounds take every interface that starts probing to the running state |
| `MdnsStates.ProbeWaitExactly` | components/mdns/mdns_pcb.c:339-389 | In every run probing starts after 120 to 247 ms, and after 1000 to 1127 ms if and only if probing has failed more than five times, counted in 16 bits, since the interface last announced or was stopped |
| `MdnsStates.OffStaysSilent` | components/mdns/mdns_pcb.c:141-158 | In every run an interface switched off and cleared stays off, queues nothing and transmits nothing, whatever is announced, asked, failed or removed, until probing is started or it is marked as a duplicate |
| `MdnsStates.AnnounceByState` | components/mdns/mdns_pcb.c:43-84 | A request to announce by the state of the interface: nothing when off, one fresh probe before it has announced, the first announcement again while announcing with a packet queued, one more packet when running |
| `MdnsStates.AnswerAcceptedExactly` | components/mdns/mdns_send.c:656-661 | A shared answer is queued exactly if the interface announces or runs, and is due 25, 50, 75 or 100 ms later |
| `MdnsStates.RemovalSettles` | components/mdns/mdns_pcb.c:261-299 | Removing a service leaves running exactly the interfaces that probed or announced it alone, and exactly the packets left empty go |
| `MdnsName.ReadFqdn` | components/mdns/mdns_utils.c:20-80 | On every byte string the recursive reader ends, reads inside the packet, and leaves name and position as the expansion of section 4.1.4 of RFC 1035 says, on failure too |
| `MdnsName.ReadLabel` | components/mdns/mdns_utils.c:31-59 | A label is taken only if it has at most 63 bytes and lies inside the packet |
| `MdnsName.ParseFqdn` | components/mdns/mdns_utils.c:88-120 | The complete parse, with the shift of parts and the check of the domain |
| `MdnsNameReading.LabelsRead` | components/mdns/mdns_utils.c:26-59 | Written-out labels are read one by one, wherever they stand and whatever follows |
| `MdnsNameReading.ReadIffWritten` | components/mdns/mdns_utils.c:20-80 | A name is read to its end if and only if it stands in the packet as stretches of labels, each but the last ending in a pointer that leads backwards, with at most 16 pointers |
| `MdnsNameReading.ChainRead` | components/mdns/mdns_utils.c:60-77 | A name of several stretches is read as all their items, and past 16 pointers not at all |
| `MdnsNameReading.CompressionInvisible` | components/mdns/mdns_utils.c:60-77 | A name of up to 16 pointers reads as the same list of labels as the whole name written out |
| `MdnsNameReading.FewPointers` | components/mdns/mdns_utils.c:65-77 | A name read to its end follows at most 16 pointers |
| `MdnsNameReading.ParsedFits` | components/mdns/mdns_utils.c:26-59 | At most four parts are stored, and every string fits its buffer with its terminator |
| `MdnsNameReading.NameIsFoldOfLabels` | components/mdns/mdns_utils.c:26-120 | For every name that can be read, the name is the left fold of the label rule over its labels unless it has four parts and ends in a pointer to nothing, and the parsed name is the arranged fold if and only if it is not a complete four-part name that ends so |
| `MdnsNameReading.CompleteNameMarked` | components/mdns/mdns_utils.c:26-120 | A packet where it fails: a._b._c.local with a pointer to the empty name parses as invalid although its labels make a valid name |
| `MdnsNameReading.ServiceNamesParsed` | components/mdns/mdns_utils.c:88-120 | instance._service._proto.local and _service._proto.local come out part by part |
| `MdnsNameReading.HostNamesParsed` | components/mdns/mdns_utils.c:88-120 | host.local keeps its host and a host of two labels is joined with a dot |
| `MdnsNameReading.SubtypeParsed` | components/mdns/mdns_utils.c:49-50 | name._sub._service._proto.local is told apart and keeps its parts |
| `MdnsNameReading.ValidExactly` | components/mdns/mdns_utils.c:88-120 | A name with a part is valid if and only if the label rule has not marked it, it has two parts or more, and its last label but subtype markers is local or arpa in any case |
| `MdnsNameReading.ValidOnlyInKnownDomain` | components/mdns/mdns_utils.c:115-119 | Whatever the packet, a parsed name is valid only in one of these two domains |
| `MdnsNameReading.MarkerBehindDomain` | components/mdns/mdns_utils.c:49-50 | A subtype marker behind the domain does not count as the last label: host.local._sub is valid |
| `MdnsHostNames.DottedHostParsed` | components/mdns/mdns_utils.c:39-48 | A host of any number of labels in domain local comes out joined with dots, cut to 64 characters |
| `MdnsHostNames.ReverseNameParsed` | components/mdns/mdns_utils.c:39-48 | The labels before in-addr.arpa or ip6.arpa come out as one dotted text in the place of the service |
| `MdnsTxt.AppendRecordData` | components/mdns/mdns_send.c:1016-1034 | The record data is appended entry by entry, one zero byte without items, and the append fails exactly when an entry does not fit |
| `MdnsTxt.AppendEntry` | components/mdns/mdns_send.c:115-133 | One entry is appended, or nothing at all if it does not fit |
| `MdnsTxt.GetTxtItemsCount` | components/mdns/mdns_receive.c:181-203 | The number of entries up to a zero length byte, or an error if one runs over the end |
| `MdnsTxt.CountExactly` | components/mdns/mdns_receive.c:181-203 | The count is n if and only if the data is n entries up to a zero byte or its end; one byte counts as no entry even where it announces more |
| `MdnsTxt.ItemExactly` | components/mdns/mdns_receive.c:208-316 | An entry is an item if and only if it does not begin with the character =; its key is what comes before the first one, its value what comes behind it, if anything |
| `MdnsTxt.ResultTxtCreate` | components/mdns/mdns_receive.c:224-316 | The items that the entries with a key hold, in order, or nothing |
| `MdnsTxt.RecordRoundTrip` | components/mdns/mdns_receive.c:181-316 | Reading a printed record gives back the items in order, an empty value as no value |
| `MdnsTxt.LoopsAgreeIffAllKeyed` | components/mdns/mdns_receive.c:224-316 | After a successful count building never fails or exceeds it, and both agree if and only if every entry has a key |
| `MdnsTieBreak.CompareIsTotalOrder` | components/mdns/mdns_receive.c:393-490 | The comparison by length and then by bytes is an antisymmetric, transitive total order in which only equal records are the same |
| `MdnsTieBreak.GreaterByteWins` | components/mdns/mdns_receive.c:393-490 | The longer record wins, and of two of one length the one with the greater byte where they first differ |
| `MdnsTieBreak.CheckTxtCollision` | components/mdns/mdns_receive.c:393-433 | The verdict compares the printed own record with the received one |
| `MdnsTieBreak.TxtTieBreakDecides` | components/mdns/mdns_receive.c:393-433 | The verdicts of two hosts that see each other are opposite if and only if not both records have one byte with an item on some side; then a host with an item takes itself for the winner and one without calls it the same |
| `MdnsTieBreak.OneByteRecord` | components/mdns/mdns_receive.c:393-403 | A record has one byte if and only if there is no item or a single one with neither key nor value |
| `MdnsTieBreak.CheckSrvCollision` | components/mdns/mdns_receive.c:438-490 | The verdict compares both records built in full; without an own host name it is the same |
| `MdnsTieBreak.SrvTieBreakDecides` | components/mdns/mdns_receive.c:438-490 | Two hosts in domain local never both win and never both lose; it is the same if and only if priority, weight, port and host name are |
| `MdnsTieBreak.GreaterNumbersWin` | components/mdns/mdns_receive.c:438-490 | Between hosts of one name the greater priority wins, then the greater weight, then the greater port |
| `MdnsTieBreak.GreaterHostWins` | components/mdns/mdns_receive.c:438-490 | With the same numbers the longer host name wins, and of two of one length the one with the greater byte where they first differ |
| `RadioScroll.Advance` | src/Helpers/RadioRemoteVolumeControl.hpp:76-88 | Moving step by step, up or down |
| `RadioScroll.RadioRemoteVolumeControl.Process` | src/Helpers/RadioRemoteVolumeControl.hpp:123-167 | One message takes the filter to the predicted state and gives the predicted answer |
| `RadioScroll.UpInClosedForm` | src/Helpers/RadioRemoteVolumeControl.hpp:50-88 | Any number of steps up: the first overflow after 256 - position, then one every 128 |
| `RadioScroll.DownInClosedForm` | src/Helpers/RadioRemoteVolumeControl.hpp:63-88 | Any number of steps down: the first overflow after position + 1, then one every 129 |
| `RadioScroll.DeltaRecoversStep` | src/Helpers/RadioRemoteVolumeControl.hpp:104-120 | The decoded step is the step made if and only if it is between -(position + 129) and 383 - position |
| `RadioScroll.ReplayReproduces` | src/Helpers/RadioRemoteVolumeControl.hpp:104-120 | Replaying the decoded step reproduces a reading if and only if at most one overflow explains it |
| `RadioScroll.TransparentIffPlausible` | src/Helpers/RadioRemoteVolumeControl.hpp:123-167 | Without a push the answers equal the inputs if and only if every movement is plausible |
| `RadioScroll.PulseExactly` | src/Helpers/RadioRemoteVolumeControl.hpp:123-167 | A message becomes a pulse if and only if the scroll moved within 3000 ms of the latest push, or of the latest pulse since that push; it points the way the scroll moved |
| `RadioScroll.EveryPulseTracesBack` | src/Helpers/RadioRemoteVolumeControl.hpp:123-167 | Every pulse traces back to a push by gaps of at most 3000 ms |
| `RadioScroll.StepsConserved` | src/Helpers/RadioRemoteVolumeControl.hpp:123-167 | After every message, the way the wheel was turned is what the forwarded messages say plus what became pulses |
| `RadioScroll.OnlyScrollChanges` | src/Helpers/RadioRemoteVolumeControl.hpp:123-167 | Every answer equals its message in everything but the scroll |
| `FuelRefill.FuelRefillTracker.AddSample` | src/Helpers/FuelRefillTracker.cpp:132-145 | The ring buffer holds the last five samples in order; with the ignition off nothing is added |
| `FuelRefill.FuelRefillTracker.GetStableFuelLevel` | src/Helpers/FuelRefillTracker.cpp:147-165 | The level of the samples in order of time, although the buffer is sorted as it lies |
| `FuelRefill.FuelRefillTracker.SaveCheckpoint` | src/Helpers/FuelRefillTracker.cpp:400-437 | Memory takes the new checkpoint exactly when it was saved |
| `FuelRefill.FuelRefillTracker.AppendRefill` | src/Helpers/FuelRefillTracker.cpp:460-505 | Memory takes the new refill exactly when it was saved; a duplicate counts as done |
| `FuelRefill.FuelRefillTracker.ProcessStartup` | src/Helpers/FuelRefillTracker.cpp:507-540 | First checkpoint, refill, decrease or nothing, and whether the check is complete |
| `FuelRefill.FuelRefillTracker.Process` | src/Helpers/FuelRefillTracker.cpp:557-637 | One call takes tracker and disk to the predicted state; when that samples and checks is told by WindowExactly and CheckRunsExactly |
| `FuelHistory.StableLevelIsMedian` | src/Helpers/FuelRefillTracker.cpp:147-165 | A level is reported if and only if five samples lie within 2 percent of each other, and it is their median |
| `FuelSampling.WindowExactly` | src/Helpers/FuelRefillTracker.cpp:557-600 | In every run the buffer holds the last five levels sampled in the present stretch, where a call is sampled if and only if tracking is on, the clock is in range, the level at most 100, the time above 5000, the ignition on and no sample since its last change less than 2500 ms old |
| `FuelSampling.LevelExactly` | src/Helpers/FuelRefillTracker.cpp:557-629 | In every run a call finds a level if and only if it is sampled and is at least the fifth sampled call of its stretch, with the last five within 2 percent |
| `FuelSampling.CheckRunsExactly` | src/Helpers/FuelRefillTracker.cpp:606-629 | In every run the startup check runs if and only if a call finds a level and no check has been completed since the ignition was last switched on |
| `FuelSampling.FirstCheckpointSaved` | src/Helpers/FuelRefillTracker.cpp:507-520 | Without a checkpoint loaded and with a working disk the first call that finds a level saves a checkpoint with time, odometer and that level |
| `FuelHistory.StableLevelTraced` | src/Helpers/FuelRefillTracker.cpp:557-637 | Every stable level is the median of the five samples in the buffer after the call, taken 2500 ms apart or more in one stretch of calls with usable inputs and the ignition on |
| `FuelHistory.MemoryIsLastSave` | src/Helpers/FuelRefillTracker.cpp:400-505 | Under any pattern of save failures memory equals the last successful save |
| `FuelHistory.RefillsAreLastFive` | src/Helpers/FuelRefillTracker.cpp:460-505 | The refill history is the last five of all loaded and accepted refills, each a rise of at least 8 percent |
| `FuelHistory.RetryAddsAgainIff` | src/Helpers/FuelRefillTracker.cpp:439-529 | After a saved refill and a failed checkpoint, a second try at any stable level adds a second record if and only if that level is a refill too and differs from the first, or the car has moved by more than 10 |
| `FuelHistory.CompleteMeansNear` | src/Helpers/FuelRefillTracker.cpp:507-540 | After a complete startup check the checkpoint is at most 1 percent above and less than 8 percent below the level; an incomplete one leaves it alone |
| `FuelHistory.CheckpointsAreLastFive` | src/Helpers/FuelRefillTracker.cpp:400-437 | Over any run and any save failures the checkpoint history is the last five of all loaded and accepted checkpoints, one with the odometer and level of the one before it left out, and the checkpoint is the latest accepted |
| `FuelHistory.CheckpointHistoryKept` | src/Helpers/FuelRefillTracker.cpp:416-429 | The checkpoint history ends with the checkpoint if and only if it was loaded so or a checkpoint has been accepted since |
| `FuelHistory.OneRefillPerSession` | src/Helpers/FuelRefillTracker.cpp:582-629 | When saves succeed, between two recorded refills the ignition was seen being switched on |
| `FuelHistory.OffCheckNeverRuns` | src/Helpers/FuelRefillTracker.cpp:632-636 | The check for the ignition going off never runs, in any reachable state |

## Left out

- Bus drivers, sockets, RTC registers, GPIO, the file system and JSON text: sending, saving and loading are abstract steps.
- ISO-TP separation delays, the internal processing hook and return codes of Process: they move no bytes of a message.
- IsoTp.IsoTpFrame.Send: payloads of 129 to 255 bytes, which the code accepts and copies past the end of its 128-byte buffer.
- IsoTp.IsoTpFrame.Receive: frames without a byte, single frames announcing more than 7 bytes and first frames outside 6 to 128, for which the code reads or writes past its buffers or wraps the 16-bit count of bytes still missing.
- IsoTp.IsoTpFrame.RcvFf: the same first frames, announcing fewer than 6 or more than 128 bytes.
- ISO-TP progress in state WAIT_FC: the code has no timeout there.
- IsoTpLink.TransferIsExact: the receiving side starts no transmission of its own and no flow control arrives but its own, because answering a first frame overwrites the block parameters of the transmit half.
- VAN timing: pulse widths, edge search and sampling phase of the ULP program; only the sequence of slices is modelled, and COM is compared as five slices instead of by its two edges.
- Both frame builders of the VAN transmitter share one helper in the model.
- Scheduler mutex: locking always succeeds; clocks are unbounded, so 64-bit wrap-around is not modelled.
- LazyGeneration.LazyIsInvisible: generators do not depend on being called and all handlers of a tick see one car state; a stored message of a handler is never sent without generating it, as in the repository.
- The messages' fields the scheduler only copies are one opaque value.
- mDNS memory allocation, except where a step of the queue or of probing depends on it; freeing; the questions and answers inside packets.
- mDNS tick counts are unbounded, so the signed 32-bit comparison of send times is a plain one.
- Which packets and interfaces the removal of a service affects is a parameter.
- mDNS shutdown, the duplicate-interface test, bye messages and the collision of A and AAAA records.
- The compressing name writer: its search for earlier names can look at bytes behind the write index.
- The name reader for builds that answer reverse queries; names are compared by ASCII case only, as strcasecmp does in the C locale.
- mDNS lists of services and TXT items without a key pointer.
- VolumeButton and scroll windows: 64-bit wrap-around of their ends.
- The other bits of a radio remote message are one opaque value.
- Fuel timestamps are the wall-clock fields instead of their text; GetPersistedData and DeletePersistedData are file operations.
- CrcStore, BCD helpers, MCP2515 identifiers and configuration mapping: finite or easy.
