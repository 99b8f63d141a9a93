# Verified model of go-dav-os

A Dafny model of the kernel's stateful cores and proofs of what they promise. Each component keeps
the form of its source: objects with fields, arrays updated in place, loops with invariants, and pure
functions where the source is pure. Mutating methods are proved against functions on values, and the
properties are lemmas about those functions.

| file | component |
|---|---|
| `Basics.dfy`, `Octets.dfy`, `Unicode.dfy` | shared types, bytes, UTF-8 |
| `Crc16.dfy`, `CrcPolynomial.dfy` | the CRC-16/CCITT-FALSE register with the algebra behind its error detection; what it computes, as division of polynomials |
| `Frame.dfy`, `Decoder.dfy`, `ErrorDetection.dfy` | the DV/1 frame: encoder, byte-at-a-time decoder, accepted language, damage it cannot accept |
| `Exchange.dfy`, `ErrorObject.dfy`, `HostBridge.dfy`, `RoundTrip.dfy` | the guest's polled exchange; the host's error objects, and a reader for them; its own framing and service loop; both ends together |
| `Agent.dfy`, `BridgePlan.dfy` | plan, validate, gate, confirm, execute; the host and guest plan validators |
| `Fat16Image.dfy`, `Fat16.dfy` | the FAT16 volume as an image of sectors, and the driver over a disk that may fail |
| `MemoryMap.dfy`, `Multiboot.dfy`, `MultibootBlock.dfy` | the walk over the boot block that records the memory map; the block as a boot loader writes it |
| `PageAllocator.dfy`, `MemFs.dfy`, `Boot.dfy` | bitmap page allocator, in-memory filesystem on top of it; both from the boot block on |
| `Scheduler.dfy`, `ContextSwitch.dfy`, `Kernel.dfy` | round-robin scheduling; the switch instruction by instruction, over many stacks; both together |
| `EditDistance.dfy`, `History.dfy`, `Terminal.dfy` | the shell's edit distance and history ring; the scrolling screen |

`dafny verify dfyconfig.toml` checks everything.

## Modelling decisions

- Bytes of disk sectors and of the boot information are integers below 256; all other bytes are 8-bit vectors.
  64-bit sums wrap explicitly (`MemoryMap.Wrap`); where a property needs them not to, the condition is a predicate
  on the inputs (`PageAllocator.NoWrap`, `Multiboot.Unwrapped`).
- A disk is 40960 sectors plus a script saying how each coming operation ends: it works, it fails, or, for a write,
  the data reaches the drive and then the flush times out, so the driver reports failure all the same
  (drivers/ata/ata.go:106-110). A sector outside the disk always fails.
- Ports and sockets are scripts of poll results, chunk sizes and failures, so a statement about the script is a
  statement about every timing. A timeout is a failing read or write; clocks are left out.
- `binascii.crc_hqx` on the host is taken to be `Crc16.Crc`, the remainder on division by x^16 + x^12 + x^5 + 1.
- The planner behind the host service is an arbitrary function from request bytes to a reply or an error.
- There may be any number of agent contexts (`Agent.Runtime.NewContext`); the history says which one a plan waits in.
- The agent's handlers act from a script: a result, perhaps a request for another planner mode, as the shell's own
  handler makes, and perhaps new values for the context. They leave the pending fields alone. Each call is recorded where it is made, with the run and the step
  it belongs to, so that what ran is not taken from the agent's own account.
- Ghost fields record history: pages handed out, files created, events of the agent, text written.

## Where the code falls short of the obvious property

- A frame whose length bytes are changed can be accepted: exactly when the announced length is allowed, that many bytes
  are there, and the two after them are their checksum (`ErrorDetection.LengthDamageAccepted`). For a shorter length the
  payload alone decides (`ErrorDetection.ShortenedIsAccepted`), and there are such payloads of every length from two on
  (`ErrorDetection.LengthDamageCanBeAccepted`). A burst of at most 16 bits that leaves the length bytes alone is rejected.
- The walk over the boot block forms its sums in 64 bits. It reads exactly the tags it should exactly when no sum at one
  of them leaves 64 bits (`Multiboot.WalkAgrees`), and the entries of a tag likewise (`Multiboot.EntriesAgree`).
  `Multiboot.HugeTagIsFollowed` is a block near the top of the address space where the walk goes on below the block; a
  block that ends four gigabytes below the top is safe (`Multiboot.FarFromTheTop`).
- `CreateFile` succeeds for names whose first byte is 0x00 or 0xE5 but the file cannot be found again; such a call costs
  a cluster and leaves the map as it was, and names are kept exactly when `Fat16Image.Storable` holds.
- When the root directory is full, `CreateFile` fails after marking a cluster, which is then lost.
- The table has entries for clusters past the end of the disk. Once lost clusters have used up the disk, `CreateFile`
  fails but the name is in the directory, without readable data; creation of a new name in a directory with a free slot
  succeeds exactly when `Fat16Image.HasRoom` holds, which `Fat16Image.MarkedDecides` reduces to a count.
- A task alone in the table that exits leaves no task running (`Scheduler.StepKeepsInv` says it is the only such case).
- A dead task runs again exactly if it is task 0, the current task exits and nothing else can run
  (`Scheduler.DeadTaskRunsAgain`). Task 0 is then called Running but is inside its own exit, which loops for ever.
- When task 0 exits, other tasks exist and none can run, the scheduler switches task 0 to itself
  (`Scheduler.SwitchesToAnother` says exactly when). Such a switch returns to its caller exactly when the pointer saved
  for the task already was where the call pushes its frame (`ContextSwitch.SelfSwitchReturns`); otherwise it goes back
  to an older stack pointer (`ContextSwitch.SelfSwitchGoesBack`).
- `FreePage` is described as freeing a page that `AllocPage` returned, but it accepts any used page from the end of the
  bitmap on. Conservation survives a successful call exactly when the page was live (`PageAllocator.Allocator.FreePage`);
  `PageAllocator.FreesTheHole` gives back a page that is not even memory.
- The guest accepts plans the host refuses, such as a target on an action that takes none
  (`BridgePlan.GuestIsLaxer`). `BridgePlan.ValidatorsAgree` says exactly where they differ: in the shape of the JSON, the
  answer "unknown", and the number of arguments.

## Model

| member | source | states |
|---|---|---|
| Crc16.UpdateChecksum | serial/frame.go:194-204 | the eight-step loop computes the byte update of the register, whose meaning `CrcPolynomial.UpdateIsRemainder` gives |
| CrcPolynomial.UpdateIsRemainder | serial/frame.go:194-204 | one byte more is one byte more of long division: the new register is the one remainder, on division by x^16 + x^12 + x^5 + 1, of the byte shifted up 16 bits with the old register added at its head |
| CrcPolynomial.CrcIsRemainder | serial/frame.go:194-204 | over every message and start value the register is the one remainder of the message shifted up 16 bits with the start value added at its head |
| CrcPolynomial.DivisionIsUnique | serial/frame.go:194-204 | quotient and remainder on division by that polynomial are determined |
| CrcPolynomial.CrcEnters | serial/frame.go:194-204 | bytes go through the register bit by bit, each from its highest bit down |
| Crc16.CheckValue | serial/frame_test.go:5-13 | the published check value: 0x29B1 for "123456789" from 0xFFFF |
| Crc16.CrcLinear | serial/frame.go:194-204 | flipping message bits flips the checksum by an amount depending on the flipped bits alone, for all messages of one length |
| Crc16.CrcResidue | serial/frame.go:194-204 | feeding two more bytes clears the register exactly when they are its own high and low byte |
| Crc16.BurstDetected | serial/frame.go:194-204 | no nonzero pattern within 16 consecutive bits is divided exactly |
| Frame.Admission | serial/frame.go:68-77 | encoding succeeds exactly for a present output, a valid kind, an in-limit length, and a payload unless the length is 0; which error otherwise |
| Frame.Encode | serial/frame.go:68-99 | on success the buffer holds exactly the frame of the payload and nothing after it changes; on refusal nothing changes |
| Frame.WireFormat | docs/v0.6.0/agent_transport.md:43-57 | the frame byte by byte as the table of the protocol gives it: magic, version, kind, big-endian length, payload, big-endian checksum of all but the magic |
| Decoding.Decoder.Reset | serial/frame.go:101-108 | the decoder is as new, its buffer kept |
| Decoding.Decoder.Push | serial/frame.go:110-177 | one byte has exactly the effect of the step function; payload writes stay inside the buffer in every state |
| Decoding.StepInBounds | serial/frame.go:155-161 | the payload index is in bounds after every step |
| Decoding.FramesAreDecoded | serial/frame.go:110-177 | every valid frame at the front of any input is delivered with its kind and payload after exactly its bytes |
| Decoding.AcceptedIsFrame | serial/frame.go:110-177 | whatever is accepted from reset is the encoding of a valid frame, which the decoder holds |
| Decoding.AcceptsExactlyFrames | serial/frame.go:68-177 | the accepted language, both directions, with the frame delivered |
| Decoding.AcceptsByParts | serial/frame.go:110-177 | the accepted language byte by byte: a good header, then as many bytes as it announces, then their checksum |
| Decoding.OutcomeByParts | serial/frame.go:110-177 | how every other run ends, and after how many bytes: malformed at the first wrong opening byte, oversized at the length, malformed at a wrong checksum, or not yet |
| Decoding.FramesAreUnique | docs/v0.6.0/agent_transport.md:43-57 | at most one valid frame starts a given input |
| ErrorDetection.BurstsAreRejected | serial/frame.go:110-204 | a valid frame hit by one burst of at most 16 bits outside its length bytes is never accepted, whatever follows |
| ErrorDetection.AdjacentDamageIsRejected | serial/frame.go:110-204 | damaging at most two adjacent bytes, length bytes excepted, never makes the first final result a success |
| ErrorDetection.LengthDamageAccepted | serial/frame.go:139-171 | a valid frame with any other length bytes, and whatever follows it, is accepted exactly when the announced length is allowed, that many bytes are there, and the next two are their checksum |
| ErrorDetection.ShortenedIsAccepted | serial/frame.go:139-171 | for a length at least two shorter, exactly when the payload holds the checksum of its own start right after it |
| ErrorDetection.LengthDamageCanBeAccepted | serial/frame.go:139-171 | for every start of a payload there is a frame that, with its length bytes changed, is accepted as that start, whatever follows |
| Exchange.FeedOneMore | serial/transport.go:37-49 | pushing byte by byte follows the whole-run function |
| Exchange.DrainedStops | serial/transport.go:66-72 | draining leaves the line right after its first empty poll, or at the limit |
| Exchange.ReceivedConcat | serial/transport.go:35-49 | the bytes received are those of the polls that bring one, in order |
| Exchange.AcceptedIs | serial/transport.go:25-33 | the transmitter takes all that is offered exactly when it is always ready, and nothing exactly when it never is |
| Exchange.Port.DrainInput | serial/transport.go:66-72 | the polls that remain are those after the first empty one, or after twice the largest frame if none before is empty |
| Exchange.Port.WriteFrame | serial/transport.go:25-33 | as many bytes of the frame go out, in order, as the transmitter accepts within a million polls; it succeeds exactly when that is all of them |
| Exchange.Port.ReadFrame | serial/transport.go:35-63 | the result is the decoder's first final result over the bytes within the poll budget, or a partial-frame or read timeout |
| Exchange.Port.Exchange | serial/transport.go:12-64 | the exact result for every request, port and sequence of polls; success means the request frame was sent whole and a response frame was first on the drained line, its payload copied out; a failure leaves the response buffer alone |
| Exchange.VerdictIs | serial/transport.go:35-63 | which bytes bring which end: success exactly for a response frame first, unexpected exactly for a request frame first, a read timeout exactly for silence |
| Exchange.QuietLineDelivers | serial/transport.go:35-58 | if a response frame is the first thing to arrive after draining, its payload is what comes back |
| HostBridge.EncodersAgree | scripts/agent_bridge_protocol.py:50-54 | the host's response frame is byte for byte the guest's |
| HostBridge.DecodersAgree | scripts/agent_bridge_protocol.py:28-47 | the host decodes header and body exactly when together they are a request frame of that payload |
| ErrorObject.ErrorResponse | scripts/agent_bridge_protocol.py:79-91 | the shrink loop ends for every code and message, unpaired surrogates included, with an object of at most 1024 bytes that says what `ErrorSays` says |
| ErrorObject.ErrorsFit | scripts/agent_bridge_protocol.py:79-91 | every error object fits a response frame |
| ErrorObject.EscapedReads | scripts/agent_bridge_protocol.py:86-88 | a JSON reader gets back, up to the closing quote, exactly the UTF-16 units of any text that was escaped |
| ErrorObject.ErrorSays | scripts/agent_bridge_protocol.py:79-91 | a JSON reader finds the first 32 characters of the code in the code field, and in the message field the first 96 of the message, or as many as fit |
| ErrorObject.SaidInFull | scripts/agent_bridge_protocol.py:79-91 | codes and messages of together at most 82 characters are there in full |
| HostBridge.ResponseFor | scripts/agent_bridge.py:21-28 | the reply itself if it is at most 1024 bytes; otherwise the error object for an oversized reply, and for a failure the object with its code and message; always at most 1024 bytes |
| HostBridge.ReplyIsOwed | scripts/agent_bridge.py:31-46 | an intact request is answered with what its planning is owed, a damaged one with the error object for a checksum mismatch |
| HostBridge.Stream.ReadExact | scripts/agent_bridge_transport.py:22-35 | returns exactly the next bytes however they are chunked; fails only at the end of the stream or when a read fails |
| HostBridge.Stream.Receive | scripts/agent_bridge_transport.py:51-55 | takes off exactly one well-framed request, delivering its payload or reporting its checksum, and fails for good exactly when the line breaks or none is at the front of the stream |
| HostBridge.Stream.Send | scripts/agent_bridge_transport.py:57-64 | sends exactly the response frame, nothing if it is too large, or a part of it if the line breaks |
| HostBridge.Stream.Serve | scripts/agent_bridge.py:31-46 | for every byte stream in any chunks: the stream is some well-framed requests, intact or not, then something that is not one, and exactly one response frame per request goes out, in order; a break cuts at most the last one; asked for one request, it stops after the first intact one |
| HostBridge.SplitIsUnique | scripts/agent_bridge_protocol.py:28-47 | a stream splits into requests and a rest in only one way, so the bytes alone determine what is answered |
| HostBridge.GuestDecodesReplies | scripts/agent_bridge.py:31-46 | the guest's decoder, reset at the i-th response, delivers exactly the i-th reply |
| RoundTrip.FrameIsRequest | serial/frame.go:68-99 | the guest's request frame is one intact request to the host and nothing else |
| RoundTrip.AnswerComesBack | serial/transport.go:35-58 | a line that starts with what the host sends for a request yields exactly the planner's answer, or the error object owed for it |
| RoundTrip.Converse | serial/transport.go:12-64 | end to end: if the host gets the bytes the guest sent and the drained line starts with the bytes the host sends, the exchange returns the planner's reply to the request; if that is too large, or planning failed, an object with the error's code and message |
| Agent.CheckedFrom | agent/runtime.go:234-266 | validation passes exactly when every action of the plan passes its checks |
| Agent.ValidIs | agent/runtime.go:234-291 | validation passes exactly plans of one to four actions of known kinds, one of two risks, names of at most 16 bytes, present where needed, and no data; from the language model no writes, and risky exactly for deletes |
| Agent.FirstFault | agent/runtime.go:234-266 | a refused plan is refused for its number of actions, or for the fault of its first faulty action |
| Agent.RefusedBecause | agent/runtime.go:241-264 | each refusal of an action names a fault it has |
| Agent.ModelPlansAreTame | agent/runtime.go:234-291 | a valid plan from the language model contains no write, and is risky if it deletes |
| Agent.RiskyRunsWereQueued | agent/runtime.go:126-199 | in every history a risky plan that ran was confirmed, was queued in some context, stayed the one waiting there, and was taken from there just before |
| Agent.AtMostOncePerQueueing | agent/runtime.go:126-144 | for every context, runs of plans taken from it never outnumber the plans taken, nor those the plans queued in it |
| Agent.QueueingsAreUsedOnce | agent/runtime.go:126-144 | two confirmed runs go back to two different queueings |
| Agent.ModelRunsAreTame | agent/runtime.go:234-320 | no language-model plan ever executes a write, nor a delete without confirmation |
| Agent.RiskyCallsWereConfirmed | agent/runtime.go:126-199 | every single call of a handler with a risky action is a step of a confirmed run whose plan was queued, stayed waiting in its context, and was taken just before |
| Agent.CallsIncrease | agent/runtime.go:181-192 | no step of a run is ever called twice: run and step strictly increase over all calls |
| Agent.QueueingsCallOnce | agent/runtime.go:126-199 | two calls that go back to the same queueing are different steps of one run, so a confirmation accounts for at most one call of each action |
| Agent.ModelCallsAreTame | agent/runtime.go:234-291 | every single call that belongs to a language-model plan is no write, and no delete without confirmation |
| Agent.GoesThrough | agent/runtime.go:181-198 | a plan whose actions all have handlers that succeed reaches each of them, and ends with the one result or as complete |
| Agent.StopsAt | agent/runtime.go:181-198 | the first action without a handler, or whose handler fails, ends the plan with its result, and no later one is reached |
| Agent.SingleIs | agent/runtime.go:71-97 | a typed action becomes a plan of that one action, its kind and risk kept and its target cut at 16 bytes, valid exactly for acceptable arguments |
| Agent.CalledInOrder | agent/runtime.go:181-192 | the handlers see a plan's actions in order from the first, none left out |
| Agent.Context.BeginRequest | agent/types.go:257-280 | records the request, cut at 128 bytes, counts it modulo 2^64 and among the recent ones, and clears the current task |
| Agent.Runtime.NewContext | agent/types.go:243-255 | a new context has nothing pending and takes nothing from the history of the others |
| Agent.Runtime.SetPlannerMode | agent/runtime.go:39-56 | the model planner can be selected exactly when configured, an unsupported mode never |
| Agent.Runtime.ConfigureLLMPlanner | agent/runtime_host.go:7-21 | removing the model planner falls back to the deterministic one |
| Agent.Runtime.Execute | agent/executor.go:22-56 | known kinds reach their handler and that call is recorded, everything else fails closed; a handler can switch the planner only to a mode that may be selected |
| Agent.Runtime.ExecuteAll | agent/runtime.go:181-198 | actions run in order up to the first failure; the result is the failure, the one result, or completion |
| Agent.Runtime.Finish | agent/runtime.go:201-222 | the context update after a plan; the pending fields are untouched |
| Agent.Runtime.EvaluateSafety | agent/runtime.go:306-320 | exactly the unconfirmed risky plans are stopped, and queued when there is a context |
| Agent.Runtime.RunPlan | agent/runtime.go:150-199 | for any context or none, the history and the handlers gain exactly what the pipeline decided: nothing reaches a handler unless the plan is valid, safe or confirmed, and an executor is there; every context stays in step with the history and the trace never overflows; a stopped plan is the one now pending; the trace, the reasons and messages, and what the context remembers are stated for every way it can end |
| Agent.Runtime.ConfirmAction | agent/runtime.go:126-144 | a confirmation consumes the pending plan, and only a positive one hands that same plan to the handlers; any other answer is a cancellation |
| Agent.Runtime.RunAction | agent/runtime.go:71-97 | from its arguments alone: unacceptable ones are rejected and nothing happens; a risky action calls nothing, asks for confirmation and leaves exactly itself pending; a safe one is called exactly once, with its kind and target, if there is an executor and a handler, and its result comes back |
| Agent.Runtime.Run | agent/runtime_host.go:23-50 | a planning failure executes nothing; a plan goes through the pipeline unconfirmed, and is left pending if risky |
| BridgePlan.GuestAccepts | agent/planner_llm.go:44-72 | exactly which bridge responses the guest turns into a plan |
| BridgePlan.GuestPlanIs | agent/planner_llm.go:57-71 | the plan is one action with the response's kind, risk and target |
| BridgePlan.KindsArePrinted | agent/types_host.go:77-104 | a name the host knows becomes the number the guest has that name for |
| BridgePlan.AcceptedPlanIs | scripts/agent_bridge_planner.py:123-126 | accepting a response only fills in a missing list of arguments |
| BridgePlan.AcceptedMeansTheSame | scripts/agent_bridge_planner.py:80-126 | end to end: an accepted action becomes one guest action of the kind with that name, risky exactly for a delete, whose target reads as the argument in UTF-8 |
| BridgePlan.HostAcceptsImpliesGuestAccepts | scripts/agent_bridge_planner.py:80-120 | under the guest's allow list every plan the host accepts, other than "unknown", the guest accepts after mapping names and target bytes |
| BridgePlan.ValidatorsAgree | scripts/agent_bridge_planner.py:80-120 | for every response: the host accepts exactly if it is well-shaped and either says "unknown" properly, or is accepted by the guest and has the right number of arguments |
| BridgePlan.HostAcceptsExactly | scripts/agent_bridge_planner.py:80-120 | for any allow list: exactly which named actions the host accepts, with which intent, risk and arguments |
| BridgePlan.NamedActionsAgree | agent/planner_llm.go:57-71 | for well-shaped responses naming an action, the host accepts exactly when the guest does and the number of arguments is right |
| BridgePlan.UnknownIsRefused | agent/planner_llm.go:57-59 | the guest never turns "unknown" into a plan |
| BridgePlan.GuestIsLaxer | agent/planner_llm.go:57-71 | a plan with a target it does not need is accepted by the guest and refused by the host |
| Unicode.EncodedReads | scripts/agent_bridge_planner.py:129-133 | a UTF-8 reader gets back every text that was encoded |
| Unicode.SizeOfEncoded | scripts/agent_bridge_planner.py:129-133 | the length the host checks is the number of target bytes the guest receives |
| Fat16Image.EntryReadsBack | fs/fat16/fat16.go:337-359 | every field of a written directory slot reads back, and the slot reads as a file exactly for storable names |
| Fat16Image.EntryLayout | fs/fat16/fat16.go:337-359 | the bytes of a written slot: name in 0 to 10, zeros, cluster at 26 and size at 28, low bytes first |
| Fat16Image.OnDisk | fs/fat16/fat16.go:441-479 | table entry c is the little-endian word at byte 2c of the table, slot k the 32 bytes at 32k of the directory |
| Fat16Image.LabelBit | fs/fat16/fat16.go:257-267 | a slot is skipped as a volume label exactly if bit 3 of its attributes is set |
| Fat16Image.BootDescribes | fs/fat16/fat16.go:73-117 | the boot sector describes the layout every operation uses |
| Fat16Image.FatAfterSet | fs/fat16/fat16.go:468-479 | setting a table entry changes that entry and no other |
| Fat16Image.SlotAfterSet | fs/fat16/fat16.go:332-363 | writing a directory slot changes that slot and no other |
| Fat16Image.ReserveKeeps | fs/fat16/fat16.go:292-303 | reserving a free cluster, mirrored or not, keeps every file's slot and data and leaves the cluster owned by nobody |
| Fat16Image.SetSlotKeeps | fs/fat16/fat16.go:332-363 | adding an entry with a new name and cluster keeps the volume consistent and every other file as it was |
| Fat16Image.SetDataKeeps | fs/fat16/fat16.go:365-377 | a data write touches no file but the cluster's owner |
| Fat16Image.ViewAfterCreate | fs/fat16/fat16.go:242-380 | the map of names to files gains exactly the new file, whichever cluster it got |
| Fat16Image.FilesAreStorable | fs/fat16/fat16.go:398-403 | no file of a consistent volume has a name starting 0x00 or 0xE5, so such names are never found |
| Fat16Image.KeysCount | fs/fat16/fat16.go:97-98 | the map has exactly as many names as used slots, so at most 512 |
| Fat16Image.ViewKept | fs/fat16/fat16.go:242-380 | a call that adds no entry leaves the map as it was |
| Fat16Image.VolUnique | fs/fat16/fat16.go:257-260 | the image alone determines which files it holds, so mounting finds them again |
| Fat16Image.LowestDecides | fs/fat16/fat16.go:441-465 | taking the lowest free cluster succeeds exactly when any is free, and lands on the disk exactly when any free one does |
| Fat16Image.MarkedDecides | fs/fat16/fat16.go:441-465 | on a disk that never failed, the room left follows from the number of clusters taken |
| Fat16Image.SetSlotTables | fs/fat16/fat16.go:332-363 | a directory write leaves both tables as they were |
| Fat16Image.LostSlotKeeps | fs/fat16/fat16.go:332-363 | an entry under an unstorable name leaves every file in place and its slot free |
| Fat16.FormattedIsTight | fs/fat16/fat16.go:73-152 | a fresh volume is consistent and stands for the empty map |
| Fat16.Disk.ReadSector | drivers/ata/ata.go:66-86 | a read delivers the sector or leaves the buffer alone |
| Fat16.Disk.WriteSector | drivers/ata/ata.go:88-111 | a success has replaced that one sector; a failure has replaced it or changed nothing |
| Fat16.Volume.Init | fs/fat16/fat16.go:35-71 | accepts exactly signed boot sectors with 512-byte sectors and lays out tables, directory and data one after the other from their parameters; unmounts on a missing signature; a volume that holds files mounts as their map, and mounting again changes nothing |
| Fat16.Volume.Format | fs/fat16/fat16.go:73-152 | writes the boot sector byte for byte, zeroes both tables and the directory, leaves data sectors alone; a volume mounted meanwhile is the empty map at once; a failure leaves the first sectors formatted and all others as they were |
| Fat16.Volume.CheckDuplicate | fs/fat16/fat16.go:248-290 | finds the name exactly when a file has it, unless a sector cannot be read |
| Fat16.Volume.FindFreeCluster | fs/fat16/fat16.go:441-465 | the lowest cluster from 2 on whose entry is zero; on a reliable disk 0 only if there is none |
| Fat16.Volume.SetFATEntry | fs/fat16/fat16.go:467-489 | the first table's entry is set if it succeeds, the second's only if its own write landed; a failure changes at most that entry |
| Fat16.Volume.FindFreeEntry | fs/fat16/fat16.go:305-330 | finds the slot right after the files, or that the directory is full |
| Fat16.Volume.FillEntry | fs/fat16/fat16.go:337-359 | the 32 bytes of the entry, the rest of the sector untouched |
| Fat16.Volume.WriteEntry | fs/fat16/fat16.go:332-363 | the directory changes in exactly that slot, or, on failure, perhaps not at all |
| Fat16.Volume.WriteData | fs/fat16/fat16.go:365-377 | the cluster's sector begins with the data, as much of it as the length says and the sector holds, and is zero from there on; a failure changes at most that sector |
| Fat16.Volume.ReserveCluster | fs/fat16/fat16.go:292-303 | the lowest free cluster is marked before any entry can point to it, and files are kept whatever fails |
| Fat16.Volume.AddEntry | fs/fat16/fat16.go:305-363 | the entry goes to the next slot; files already there are kept whatever fails |
| Fat16.Volume.CreateFile | fs/fat16/fat16.go:241-380 | under any failures, late ones included, the map stays or gains exactly the named file and all other files keep slot, size, cluster and data; success under a storable name means the file is there with that size, and its sector begins with the data up to its length and is zero from there on; on a disk that does not fail, the exact result and map for every name |
| Fat16.Volume.ReadFile | fs/fat16/fat16.go:382-439 | returns exactly the map's entry, under any failures; on a disk that does not fail, it fails exactly when there is no such file or its data is past the end |
| Fat16.Perform | fs/fat16/fat16.go:35-439 | one operation answers, and leaves the volume, as the simple volume says: a map and a count of clusters taken |
| Fat16.Session | fs/fat16/fat16.go:35-439 | from formatting and mounting on, every sequence of formats, mounts, creations and reads is answered as by the simple volume; every read gives the data of the create it goes back to, and nothing else is read |
| Fat16.CreatedIsRead | fs/fat16/fat16.go:241-439 | whatever lies between, other than a format, a read gives the size and data of the create that succeeded under that name; for at most 512 bytes exactly those bytes |
| Fat16.ReadWasCreated | fs/fat16/fat16.go:241-439 | whatever a read gives was created under that name since the last format |
| Fat16.ClustersAreMarked | fs/fat16/fat16.go:292-303 | files never share a cluster; each is marked end-of-chain in both tables, and on the disk while no more than it holds have been taken |
| MemoryMap.AlignUpLeast | mem/allocator.go:23-25 | rounding up gives the least page boundary at or above, when it does not wrap |
| MemoryMap.AlignDownGreatest | mem/allocator.go:27-29 | rounding down gives the greatest page boundary at or below |
| Multiboot.SplitsBack | mem/allocator.go:31-33 | splitting a 64-bit value in halves and joining them gives it back |
| Multiboot.Loader.Record | mem/multiboot.go:78-89 | one entry is appended whose base, length and type decode to what the boot loader wrote |
| Multiboot.Loader.RecordTag | mem/multiboot.go:76-90 | the whole entries of a tag are appended, as many as fit in 64, if no sum over them leaves 64 bits |
| Multiboot.Loader.InitMultiboot | mem/multiboot.go:41-99 | if no sum of the walk leaves 64 bits: the walk ends, reads only inside the declared size, and records exactly the first 64 entries of the well-sized memory map tags before it stops |
| Multiboot.WalkAgrees | mem/multiboot.go:60-96 | the code reads exactly the tags it should, none outside the block, exactly when no sum it forms at one of them leaves 64 bits |
| Multiboot.EntriesAgree | mem/multiboot.go:78-89 | the code records exactly the whole entries of a tag exactly when no sum it forms over them leaves 64 bits |
| Multiboot.StepAgrees | mem/multiboot.go:60-95 | after one tag the code goes on as it should exactly when no sum there leaves 64 bits |
| Multiboot.FarFromTheTop | mem/multiboot.go:57-95 | no sum does if the block ends four gigabytes below the top of the address space |
| Multiboot.HugeTagIsFollowed | mem/multiboot.go:67-95 | a block near the top whose tag should stop the walk, but the code goes on below the block |
| MultibootBlock.BlockReads | mem/multiboot.go:41-99 | from every block written to the Multiboot2 layout at an address divisible by 8, whatever other tags it has, the walk takes exactly the regions of its memory map tags |
| MultibootBlock.Load | mem/multiboot.go:41-99 | loading such a block records exactly its first 64 regions |
| PageAllocator.MaxEnd | mem/allocator.go:35-51 | an upper bound of all available ends, attained unless 0 |
| PageAllocator.MaxAvailableEnd | mem/allocator.go:35-51 | the loop computes that maximum |
| PageAllocator.PlaceBitmap | mem/allocator.go:133-161 | for every map, the first region that takes the bitmap, or right after the kernel; if no sum wraps: at the lowest page boundary past the kernel where it fits, in the first available region that has one, and only if none has, at the first boundary past the kernel |
| PageAllocator.PlaceIsChosen | mem/allocator.go:133-161 | the same of the place the search gives, from the bases and sizes of the regions alone |
| PageAllocator.SizesAreLeast | mem/allocator.go:125-131 | no more pages than reach the highest end, and no more bytes than hold a bit for each |
| PageAllocator.VisitedIsInside | mem/allocator.go:72-82 | without wrap-around the free loop visits exactly the pages wholly inside the region |
| PageAllocator.InMemoryIsManaged | mem/allocator.go:125-129 | every page of available memory is below the managed count |
| PageAllocator.FreedIsUsable | mem/allocator.go:172-186 | freeing regions and reserving low memory leaves exactly the pages at or above the bitmap's end wholly inside one region |
| PageAllocator.Allocator.BitmapSet | mem/allocator.go:60-70 | exactly one page changes state |
| PageAllocator.Allocator.MarkFreeRange | mem/allocator.go:72-91 | the pages between the rounded bounds become free, the counter following even when ranges overlap |
| PageAllocator.Allocator.MarkUsedRange | mem/allocator.go:93-114 | the pages touched by the range become used, the counter following |
| PageAllocator.Allocator.InitPFA | mem/allocator.go:116-193 | succeeds exactly when there is memory; then, for every map, exactly which pages are free, with the counter their number; and if no address sum wraps, the bitmap is where `PlaceBitmap` says, its pages end less than a page past it, and the free pages are those from there on wholly inside one available region |
| PageAllocator.Allocator.AllocPage | mem/allocator.go:201-218 | hands out the lowest free page and no other page changes state; for disciplined clients 0 exactly when the counter is 0 |
| PageAllocator.Allocator.FreePage | mem/allocator.go:220-240 | succeeds exactly for aligned, used pages in range; conservation survives exactly when the call fails or the page was live |
| PageAllocator.FreesTheHole | mem/allocator.go:220-240 | a page in a hole between two regions, never handed out and not memory, is accepted, and conservation is gone |
| PageAllocator.Allocator.LivePagesAreSafe | mem/allocator.go:184-192 | pages in use by clients are not page 0, not in the kernel or the bitmap, and lie in available memory |
| PageAllocator.RunsConservePages | mem/allocator.go:201-240 | over every run in which clients return only what they were given, no page is lost, duplicated or invented, and free plus live is constant |
| MemFs.KeyCount | fs/fs.go:119-126 | never more names than slots, and as many exactly when the table is full |
| MemFs.ViewAfterStore | fs/fs.go:73-97 | storing into a slot updates the map at that name alone |
| MemFs.ViewAfterClear | fs/fs.go:107-116 | clearing a slot removes its name and nothing else |
| MemFs.FileSystem.Init | fs/fs.go:23-31 | the filesystem is empty |
| MemFs.FileSystem.FindByName | fs/fs.go:128-149 | finds the slot of a name exactly when there is one |
| MemFs.FileSystem.FindFreeSlot | fs/fs.go:119-126 | the first unused slot, or that all are used |
| MemFs.FileSystem.CopyName | fs/fs.go:151-159 | the name, then zeros up to 16 bytes |
| MemFs.FileSystem.Lookup | fs/fs.go:45-53 | returns the page and size of exactly the named file |
| MemFs.FileSystem.Write | fs/fs.go:55-98 | succeeds exactly for a valid name that exists or has a free slot and page; then the map is updated at that name alone, with all of the data up to 4096 bytes; a failure changes nothing |
| MemFs.FileSystem.Remove | fs/fs.go:100-117 | removes exactly the named file and returns exactly its page to the allocator |
| MemFs.FileSystem.FilePagesAreSafe | fs/fs.go:75-87 | file pages lie in available memory, clear of kernel and bitmap |
| MemFs.FileSystem.NoPagesNoFiles | fs/fs.go:75-83 | without a page allocator there are no files |
| Boot.LoadMap | kernel/kernel.go:38-38 | the entries handed to the allocator are exactly those the boot loader lists, as far as they are recorded |
| Boot.Start | kernel/kernel.go:38-44 | after booting there are no files, and as many pages to spare as the listed regions leave |
| Boot.Perform | fs/fs.go:45-117 | one operation answers, and leaves the filesystem, as a map of at most 32 files with a count of spare pages says |
| Boot.ReadsAreWrites | fs/fs.go:45-117 | over every sequence of operations, reads give the last write to their name, and only that |
| Boot.Session | kernel/kernel.go:38-44 | from the boot block on, every sequence of file operations is answered as by that map; every read gives the last write to its name, up to 4096 bytes, and nothing if there was none or it was removed since; and every file lies in memory the boot loader listed as available, past kernel and bitmap |
| Scheduler.PickFinds | kernel/scheduler/scheduler.go:136-143 | the round-robin search finds a runnable task if there is one and skips none |
| Scheduler.StepKeepsInv | kernel/scheduler/scheduler.go:51-166 | exactly one task is Running, and it is the current one, after any operation except the exit of a task alone in the table, and not after that |
| Scheduler.StepChanges | kernel/scheduler/scheduler.go:51-166 | an operation changes nothing but the two tasks concerned: the one that gives way stays runnable, the one that exits is dead, the one chosen runs, and a new one is runnable in the next of 16 slots |
| Scheduler.RunKeepsInv | kernel/scheduler/scheduler.go:51-166 | the same over every run of operations |
| Scheduler.DeadForever | kernel/scheduler/scheduler.go:108-163 | over every run a dead task other than task 0 never runs again |
| Scheduler.DeadTaskRunsAgain | kernel/scheduler/scheduler.go:145-163 | a dead task runs again exactly if it is task 0, the current task exits and nothing else can run |
| Scheduler.SwitchesToAnother | kernel/scheduler/scheduler.go:145-165 | a decision stays with the current task exactly when nothing else is runnable and, on exit, it is task 0 |
| Scheduler.DecisionComesNearer | kernel/scheduler/scheduler.go:119-166 | each decision runs a waiting task or brings it strictly nearer on the 16-slot ring; creation never delays it |
| Scheduler.EveryRunnableTaskRuns | kernel/scheduler/scheduler.go:119-166 | while a runnable task has not run, fewer than 15 scheduling decisions have been made |
| Scheduler.TaskTable.Init | kernel/scheduler/scheduler.go:34-45 | one task, running |
| Scheduler.TaskTable.NewTaskEntry | kernel/scheduler/scheduler.go:51-89 | adds a runnable task with the next identifier, before or after initialisation, unless the table is full or there is no entry |
| Scheduler.TaskTable.Schedule | kernel/scheduler/scheduler.go:119-166 | the table changes by exactly one decision, and whether the processor is given to a task |
| Scheduler.TaskTable.Exit | kernel/scheduler/scheduler.go:108-117 | nothing without a current task; else the current task is dead and another decision is made, which comes back without a switch exactly when the table has no other task |
| ContextSwitch.Cpu.CpuSwitch | asm/switch.s:9-24 | the instruction sequence saves to the old stack and loads from the new one |
| ContextSwitch.Cpu.BuildStack | kernel/scheduler/scheduler.go:65-84 | the prepared stack, store by store |
| ContextSwitch.BuiltIsParked | kernel/scheduler/scheduler.go:65-84 | a prepared task is suspended at its entry, registers zero, its return leading to the automatic exit |
| ContextSwitch.SwitchResumes | asm/switch.s:9-24 | the task switched to has exactly its recorded context |
| ContextSwitch.NextKeepsInv | asm/switch.s:9-24 | computing, creating and switching keep every suspended task's context on its stack, for stacks of any size, the boot stack included |
| ContextSwitch.RunKeepsInv | asm/switch.s:9-24 | the same over every run of computing, creating and switching |
| ContextSwitch.TasksResumeWhereTheyLeft | asm/switch.s:9-24 | over every run a task continues with the RBP, RBX, RSI, RDI, return address, stack pointer and stack it had at its last switch |
| ContextSwitch.FreshTasksStartAtEntry | kernel/scheduler/scheduler.go:65-86 | a new task first runs at its entry with those registers zero, returning to the automatic exit |
| ContextSwitch.SelfSwitchGoesBack | kernel/scheduler/scheduler.go:148-165 | switching a task to itself always goes back to the stack pointer saved before, and to the whole context saved before if the two frames do not overlap |
| ContextSwitch.SelfSwitchReturns | asm/switch.s:9-24 | a task switched to itself returns from the call exactly when its saved pointer already was where the call pushes |
| ContextSwitch.SelfSwitchComputes | asm/switch.s:9-24 | a task that switches to itself touches no other task's stack or saved pointer |
| Kernel.NextKeepsInv | kernel/scheduler/scheduler.go:51-166 | computing, creating, yielding and exiting keep table and processor on the same task, one task running, and every suspended context on its stack |
| Kernel.RunIsSeen | kernel/scheduler/scheduler.go:157-165 | every run of the task table drives the processor through a run of switches |
| Kernel.ChosenTaskResumes | kernel/scheduler/scheduler.go:119-166 | over every run, the task a decision chooses goes on with the registers, return address and stack it had when a decision last took the processor from it |
| Kernel.ChosenTaskStarts | kernel/scheduler/scheduler.go:51-89 | over every run, a created task that a decision first chooses starts at its entry with zero registers and returns to the automatic exit |
| Kernel.YieldingTaskComesBack | kernel/scheduler/scheduler.go:119-166 | a task that yields comes back before 15 further decisions have passed it by, exactly where it was |
| EditDistance.CalculateDistance | shell/shell.go:1531-1560 | the two rows compute the distance recurrence for every token and command that fit |
| EditDistance.BestWorks | shell/shell.go:1531-1560 | some edit script of that cost turns the token into the command |
| EditDistance.NoneBetter | shell/shell.go:1531-1560 | no edit script does it for less |
| EditDistance.Identity | shell/shell.go:1531-1560 | the distance is zero exactly for equal words |
| EditDistance.Symmetry | shell/shell.go:1531-1560 | the distance is the same both ways |
| EditDistance.Triangle | shell/shell.go:1531-1560 | the triangle inequality |
| History.RecordedIsCollapsed | shell/shell.go:213-233 | comparing with the last recorded line collapses runs of equal commands |
| History.Ring.IsDuplicate | shell/shell.go:215-233 | detects exactly a repeat of the line recorded last |
| History.Ring.Record | shell/shell.go:213-245 | a non-empty line that differs from the last one recorded is added, and the ring holds the last 32 recorded |
| History.Ring.List | shell/shell.go:1123-1136 | lists the lines kept, oldest first |
| History.Session | shell/shell.go:213-245 | after any lines the listing is the last 32 non-empty ones with consecutive repeats collapsed, oldest first |
| Terminal.Screen.Clear | terminal/terminal.go:45-55 | a blank screen showing the empty transcript |
| Terminal.Screen.Scroll | terminal/terminal.go:95-107 | every row moves up one and the last is blank |
| Terminal.Screen.PutRune | terminal/terminal.go:61-93 | whatever is typed, the screen keeps showing the rows not scrolled off, blank below, the cursor in range after the last character |
| Terminal.Screen.Backspace | terminal/terminal.go:157-171 | the cursor steps back one cell and exactly that cell is blanked, or nothing happens at the top left; the shown document loses its last character or reopens the row above |
| Terminal.EraseUndoes | terminal/terminal.go:61-171 | a backspace takes back exactly the character typed before it, across the right edge and a scroll too |
| Terminal.TypedIsTranscribed | terminal/terminal.go:61-107 | without backspaces the rows on the screen are the last 25 of the transcript |
| Terminal.TranscribedIsWrapped | terminal/terminal.go:67-92 | the transcript is the text split at newlines, each line cut every 80 characters |
| Terminal.Session | terminal/terminal.go:45-171 | after a clear and any text, backspaces included, the screen shows the end of the typed document, cell by cell, with the cursor after its last character |

## Left out

- Agent.Runtime.Execute: what handlers do to files is not modelled; they act from a script, on the context too, and leave the pending fields alone.
- Fat16.Volume.Init: the offsets of every accepted layout are stated, but only one like Format's is carried through to the other operations.
- Fat16.Volume.Format: what a format that fails halfway leaves is stated, but the other operations are not followed from there until a format succeeds.
- Scheduler.TaskTable.Schedule: a decision among several tasks before initialisation is not modelled; the source would follow a nil pointer.
- BridgePlan.HostAcceptsImpliesGuestAccepts: the texts of the host's errors are not modelled.
- Exchange.Port.Exchange: matching a response to its request after a timed-out exchange is outside it, since frames carry no identifier.
- Boot assembly, descriptor tables, interrupt and timer set-up: hardware effects with easy members.
- ATA and UART port I/O: replaced by the failing disk and the polled port.
- Printing at a position, the hardware cursor and number formatting on the screen: easy members.
- The shell's command dispatcher, message tables and keyboard layouts: user interface and lookup tables.
- The HTTP provider, prompt text and JSON parsing: libraries and wording.
- The deterministic planner's keyword rules and the fake bridge's phrase matching: heuristics with no specification beyond themselves.
- FAT16 listing and info output, and the shell's raw memory, page and disk commands: output, or outside the client discipline.
- R12 to R15 across a switch: the switch does not save them.
