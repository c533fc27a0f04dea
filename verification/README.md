# The BaFS NVMe driver core, modelled and proved in Dafny

The driver talks to an NVMe device through the admin queue pair: two rings in memory, one
the driver fills with commands, one the device fills with completions. A command takes a
free command id, goes into the tail slot, and the tail doorbell is written. The device
fetches, carries out, and posts completions whose phase tag flips with every pass over the
ring. The caller polls for its id and then retires one slot of each ring; slots are retired
in any order by mark bytes, and a sweep moves the head over the marked ones. On top of that
the driver creates and deletes I/O queue pairs, pins user pages, builds PRP tables from
their bus addresses, and keeps the mappings on a circular list.

`dafny verify dfyconfig.toml` verifies the whole project.

## Modules

Words and positions
- `Counting`: finite sets and lists without repetition.
- `Slots`: unbounded logical indices against ring slots and phases; the full test.
- `Words`: machine words, the register macros, the layouts of dword 0 and dword 3.
- `Status`: the status decoder.

The admin rings
- `Rings`: one ring with mark bytes, its sweep, and its logical view.
- `AdminQueue`: the functions that take the lock, as functions on a value of the shared
  state and as methods on classes proved against them.
- `Runs`: finite runs of a state machine.
- `Protocol`: driver and device steps in any order; the invariant over every run.
- `Callers`: any number of concurrent callers on top of `Protocol`.
- `Transactions`, `Command`: one command at a time, as a run and as the driver's loop.
- `Progress`: no run of the callers leads into a dead end.
- `Overrun`, `StaleIds`: where the code does not keep what it is meant to keep.

On top of the rings
- `IoQueues`, `IoAdmin`, `IoOverRings`: the I/O queue pairs; their states, the driver's
  loops, and their commands put through the admin rings.
- `PageMap`, `PrpTable`, `HostList`: pinned pages, PRP tables, the list of mappings.

The device is modelled from NVMe 1.4: sections 4.1 and 4.6 for the rings and completions,
5.3 to 5.6 for the queue commands, 4.3 for PRP lists.

## What is proved, and where the code falls short

Over every run in which each slot is cleaned once, and for every ring size up to 4096 that
divides 65536, the wrapped heads, tails, phases and doorbells are the four unbounded
counters (submitted, retired, posted, retired) modulo the ring size; neither ring is ever
over-full; taken command ids and live slots correspond one to one; a live slot is never
rewritten; a poll returns the first posted, unretired completion with the asked id before
the end of the ring. Concurrent callers that take clear ids keep the discipline this needs
(`Callers`), and from every state they can reach, all of them can finish (`Progress`). One command at a time, all
of it holds for any ring size of at least two; a ring of one slot takes no command.

Six properties one might expect are false of the code. For each there is the exact
condition and, where a run is needed, the run.

- The full test casts the difference of tail and head to 16 bits before it reduces it
  modulo the ring size. It is right everywhere, and the ring never over-full in any run,
  if and only if the ring size divides 65536 (`Slots.FullTestExactIff`,
  `Overrun.RingSafeIff`); position by position `Slots.FullTestExactAtIff` says where it errs.
  `admin_init` takes any size up to 4096.
- A command id is free again when its submission slot is cleaned, while the completion
  that carries it may still be in the ring. Over every run of any number of callers, all of
  them are rightly served at every point if and only if each enqueue takes an id that no
  unretired completion carries (`StaleIds.ServedIffClear`); a run where one is not is
  `StaleIds.StaleCompletionServed`.
- Deleting an I/O queue pair does not lower the count of pairs in use. Create is refused
  if and only if there have been as many creates as the device supports pairs
  (`IoQueues.CreateRefusedIff`).
- Delete tests the mark of a pair and gives up the lock before it acts. What it does keeps
  everything in order if and only if the pair is live when it starts
  (`IoAdmin.DeleteSafeIff`), but the mark is also set while a create or another delete is
  half way. Two deletes at once free the buffers twice (`IoAdmin.SecondDelete`).
- Mapping and releasing user pages undoes just the DMA mappings made, unless pages were
  pinned and the mapping of one of them fails: the error path then unmaps address 0 for each
  page from there on (`PageMap.MapThenRelease`, if and only if). `get_user_pages` returning
  0 is not taken as an error: a map without a page is handed out that counts as many
  addresses as were asked for (`PageMap.HandedOutHolds`).
- The PRP layout holds 512 pages an entry. Page 512 of an entry overwrites its first page,
  page 513 of the last entry would lie outside the table (`PrpTable.ReadsBackIff`,
  `PrpTable.InBoundsIff`).

The comment on `list_insert` asks whether it inserts at the head; it appends at the tail
(`HostList.List.Insert`).

## Model

| member | source | states |
|---|---|---|
| Slots.SlotIsMod | kernel/nvme/admin.c:329-329 | the slot of logical index k is k mod qs, its phase the parity of the passes completed |
| Slots.SlotOffset | kernel/nvme/admin.c:359-363 | within one pass the slot wraps at most once and the phase flips exactly then |
| Slots.TruncationUnwrapped | kernel/nvme/admin.c:297-297 | with the tail not below the head, the 16-bit cast does no harm, for any size |
| Slots.TruncationWrapped | kernel/nvme/admin.c:297-297 | with the tail wrapped below the head, the value computed is the occupancy iff qs divides 65536 |
| Slots.TruncatedIs | kernel/nvme/admin.c:297-297 | below the wrap the value computed is the occupancy plus the remainder of 65536, reduced modulo qs |
| Slots.FullTestExactAtIff | kernel/nvme/admin.c:297-297 | position by position: below the wrap the test errs exactly on a full ring and on one that falls short of full by the remainder of 65536 |
| Slots.FullTestExactIff | kernel/nvme/admin.c:297-297 | the full test is exact in all positions of the ring iff qs divides 65536 |
| Slots.FullTestFailsForThree | kernel/nvme/admin.c:297-297 | for three slots it lets one too many in, and refuses one with room left |
| Words.ReadBitsIsField | common/bafs_utils.h:6-15 | `_RDBITS` is division and remainder by powers of two, for every value and field below bit 63 |
| Words.AndBit | kernel/nvme/admin.c:429-430 | bit k of `a & b` is that of a and that of b |
| Words.OrBit | kernel/nvme/admin.c:321-321 | bit k of a or-ed with b is that of a or that of b |
| Words.CompletionFields | kernel/nvme/admin.c:427-431 | id, phase and status are the low 16 bits, bit 16 and the bits from 17 of any dword 3; code and code type bits 7:0 and 10:8 of any status |
| Words.CompletionRoundTrip | kernel/nvme/admin.c:427-431 | cid, phase, status, code type and code packed into dword 3 come back through the driver's shifts and masks |
| Words.StampCidReads | kernel/nvme/admin.c:321-321 | the id or-ed into dword 0 is what `dword[0] >> 16` reads back when those bits were clear, else the or of both |
| Words.StampKeepsOpcode | kernel/nvme/admin.c:321-321 | the low half of dword 0 and the opcode in it are as before; on a clear high half the id times 2^16 is added |
| Status.DecodeCompletion | common/bafs_error.h:110-165 | for every completion a device can post, which table and index the text is from, range by range of code and code type; "Success" for a zero status field only |
| Status.TextsInTable | common/bafs_error.h:14-107 | no text table is read out of bounds, whatever the status |
| Rings.SweepIsSwept | kernel/nvme/admin.c:354-368 | in plain slots: the marked slots from the head on are cleared, no other mark changes, the head moves over them and around the ring, the phase flips if it passed the end, and the new head slot is unmarked |
| Rings.SweepRefines | kernel/nvme/admin.c:354-368 | the sweep over mark bytes moves the logical head over the longest marked prefix and clears just those marks |
| Rings.DoorbellFollowsHead | kernel/nvme/admin.c:382-404 | with fewer than qs entries unretired the doorbell equals the head after every cleanup, and only marked entries are released |
| Rings.DoorbellSkippedOnFullCircle | kernel/nvme/admin.c:402-404 | with all qs slots in use the test for a moved head would skip the write |
| Rings.RetireAllRefines | kernel/nvme/admin.c:339-373 | retiring a set in any order: the head is the least index not in it, the marks are the rest of it, the phase is that of the head |
| Rings.RetirementOrderIrrelevant | kernel/nvme/admin.c:339-373 | two orders of retiring the same slots give the same ring |
| Rings.CompletionOrderIrrelevant | kernel/nvme/admin.c:375-409 | the same for completions, the doorbell included |
| AdminQueue.QueueSize | kernel/nvme/admin.c:21-24 | the size is one more than the low 16 bits of the capability register, or 4096 if that is larger |
| AdminQueue.FirstFree | kernel/nvme/admin.c:305-312 | the least id not taken, or none |
| AdminQueue.PollFrom | kernel/nvme/admin.c:425-440 | the first hit from a slot to the last slot of the ring, -1 iff there is none |
| AdminQueue.HitMeans | kernel/nvme/admin.c:427-430 | a hit is the asked id in the low half of dword 3 and the driver's phase in bit 16 |
| AdminQueue.Stamped | kernel/nvme/admin.c:321-323 | the id goes into the high half of dword 0, and nothing else of the command changes |
| AdminQueue.Queue.SweepHead | kernel/nvme/admin.c:352-368 | the sweep loop computes `Sweep`; it ends within qs rounds, its offset always gives the head |
| AdminQueue.AdminQueuePair.constructor | kernel/nvme/admin.c:21-65 | heads, tails, marks and ids 0, phases 1, slots zero, for any capabilities the device reports |
| AdminQueue.AdminQueuePair.TakeCid | kernel/nvme/admin.c:305-312 | takes the least free id, or leaves the ids alone when there is none |
| AdminQueue.AdminQueuePair.EnqueueCommand | kernel/nvme/admin.c:287-337 | refused iff the truncated difference says full or all ids are taken, and then state and command are as before; else the tail slot gets the command with the least free id in it, that id is taken, tail and doorbell move by one modulo qs |
| AdminQueue.AdminQueuePair.SqMarkCleanup | kernel/nvme/admin.c:339-373 | the id in dword 0 of the slot is freed, the slot marked, the head swept |
| AdminQueue.AdminQueuePair.CqMarkCleanup | kernel/nvme/admin.c:375-409 | the slot is marked, the head swept, the doorbell written iff the head moved |
| AdminQueue.AdminQueuePair.CqPoll | kernel/nvme/admin.c:412-444 | returns the first slot from the head to the end of the ring whose dword 3 has the id and the driver's phase, or -1; changes nothing |
| AdminQueue.ClearCmd | kernel/nvme/admin.c:477-482 | all sixteen words are zero |
| Protocol.InitInv | kernel/nvme/admin.c:27-65 | the initial state meets the invariant |
| Protocol.RefusedIffSeemsFull | kernel/nvme/admin.c:297-318 | an enqueue is refused iff the test takes the ring for full; ids never run out before |
| Protocol.RefusedIffFull | kernel/nvme/admin.c:297-318 | where the test is exact (by size or position), refused iff qs - 1 commands are outstanding |
| Protocol.SubmitInvIff | kernel/nvme/admin.c:297-333 | an enqueue keeps the invariant iff the test sees a full ring whenever it is full |
| Protocol.CidAvailable | kernel/nvme/admin.c:305-318 | in a state that meets the invariant an id is free |
| Protocol.NextInv | kernel/nvme/admin.c:287-444 | every driver and device step keeps the invariant |
| Protocol.RunInv | kernel/nvme/admin.c:287-444 | so does every run |
| Protocol.RingRefinement | kernel/nvme/admin.c:287-444 | over every run: fields are counters mod qs, phases are parities, doorbells agree, neither ring holds more than qs - 1 |
| Protocol.CidLedger | kernel/nvme/admin.c:305-351 | taken ids and live slots correspond one to one through dword 0, live ids are distinct, counts agree |
| Protocol.LiveSlotStable | kernel/nvme/admin.c:323-350 | over every run without its own cleanup, a slot holds the command put there and cleaning it frees just that command's id |
| Protocol.PhaseTagSound | kernel/nvme/admin.c:425-436 | from the head to the end of the ring a slot carries the driver's phase iff its completion has been posted |
| Protocol.PollMeans | kernel/nvme/admin.c:412-444 | the poll returns the first posted, unretired completion with the id before the end of the ring, -1 iff there is none |
| Protocol.PollSlot | kernel/nvme/admin.c:425-434 | the slot returned holds that completion |
| Callers.PollFindsOwn | kernel/nvme/admin.c:465-471 | what a waiting caller's poll finds is its own completion, not yet retired |
| Callers.PollComplete | kernel/nvme/admin.c:425-443 | it finds nothing iff its completion is not between the head and the end of the ring |
| Callers.FreeSlotIsOwn | kernel/nvme/admin.c:473-473 | a caller cleans its own submission slot, once, after the device has read it |
| Callers.FreeCplIsOwn | kernel/nvme/admin.c:474-474 | and its own completion slot, once |
| Callers.RunCallsInv | kernel/nvme/admin.c:447-475 | the callers' invariant holds in every run in which ids are taken clear of unretired completions |
| Callers.CallersRefineProtocol | kernel/nvme/admin.c:447-475 | every such run is a run of the rings in which each slot is cleaned once |
| Callers.EveryCallerServed | kernel/nvme/admin.c:447-475 | in every run in which each id is taken clear, all callers get their own completion or nothing yet, and the device reads what was submitted |
| Progress.Drain | kernel/nvme/admin.c:465-474 | from any state of the callers' invariant, polls and cleanups alone can retire every posted completion |
| Progress.Settle | kernel/nvme/admin.c:465-474 | with the device, and without a new command, the system can come to rest |
| Progress.NoDeadEnd | kernel/nvme/admin.c:447-475 | from every state any callers can reach with clear ids, all answered callers can finish with their own completions, and the rings can come to rest |
| Transactions.QuiescentMeans | kernel/nvme/admin.c:473-474 | at rest, head and tail agree, nothing is marked, no id is taken |
| Transactions.Transaction | kernel/nvme/admin.c:447-475 | from rest, for any qs of at least 2: accepted, polled to the command's own completion, at rest again with all four counters one up |
| Transactions.Transactions | kernel/nvme/admin.c:447-518 | any number of commands in turn: the i-th is answered by the i-th completion with its own data and status |
| Command.AwaitCompletion | kernel/nvme/admin.c:468-471 | the poll loop ends once the device has posted, and not before |
| Command.SettledMeans | kernel/nvme/admin.c:456-474 | what went over the ring is the command as the caller gave it, and the device has read it so |
| Command.AnswerWords | kernel/nvme/admin.c:431-433 | the answer has the device's three dwords, its status, and the id |
| Command.Execute | kernel/nvme/admin.c:456-474 | the whole command on the driver's memory: the device reads it as the caller gave it, the completion returned has the device's data and status for it, the rings are at rest again |
| Command.Boot | kernel/nvme/admin.c:21-65 | the rings as set up are at rest |
| Overrun.OverrunIff | kernel/nvme/admin.c:297-333 | with the head at slot 1 and qs - 1 outstanding, one more is accepted iff qs does not divide 65536, and then the device sees an empty ring |
| Overrun.RingSafeIff | kernel/nvme/admin.c:287-337 | no run from the initial state over-fills the ring iff qs divides 65536 |
| StaleIds.FirstPollRightIff | kernel/nvme/admin.c:412-444 | a new command's first poll finds nothing iff no posted completion in the polled stretch carries its id |
| StaleIds.PastEndKept | kernel/nvme/admin.c:437-439 | in every run a completion past the end of the polled stretch belongs to a caller that is still waiting |
| StaleIds.FirstPollTellsClear | kernel/nvme/admin.c:305-443 | in a state of a run the first poll finds nothing iff no unretired completion at all carries the id |
| StaleIds.ServedIffClear | kernel/nvme/admin.c:447-475 | over every run of any callers, ids clear or not: all are rightly served at every point iff each enqueue takes a clear id |
| StaleIds.ClearIsRun | kernel/nvme/admin.c:447-475 | the runs with clear ids are exactly those of `Callers.EveryCallerServed` |
| StaleIds.StaleCompletionServed | kernel/nvme/admin.c:348-351 | a run on any ring size in which a caller is handed another caller's completion |
| IoQueues.CreateCqWords | kernel/nvme/admin.c:611-615 | all sixteen dwords of the command that creates a completion queue |
| IoQueues.CreateSqWords | kernel/nvme/admin.c:653-657 | all sixteen dwords of the command that creates a submission queue |
| IoQueues.DeleteWords | kernel/nvme/admin.c:706-729 | all sixteen dwords of the two delete commands |
| IoQueues.CommandFields | kernel/nvme/admin.c:611-657 | the device reads from the two create commands the opcodes, queue ids and buffer addresses that were meant |
| IoQueues.DeleteFields | kernel/nvme/admin.c:706-729 | and from the two delete commands the opcodes and queue ids |
| IoQueues.StampCarries | kernel/nvme/admin.c:321-323 | the command id does not change what the device does with a command |
| IoQueues.FreePairFound | kernel/nvme/admin.c:577-592 | by pigeonhole the search for a pair does not fall through |
| IoQueues.QueueLifecycle | kernel/nvme/admin.c:564-765 | over every interleaving of creates and deletes that start from live pairs: no command is rejected, each SQ has its own CQ, marks are at most `used`, a pair between operations is marked iff its queues exist |
| IoQueues.QueuesInHeldBuffers | kernel/nvme/admin.c:601-657 | over the same runs every queue on the device lies at the bus address of the buffer its pair holds, which has not been freed |
| IoQueues.UsedNeverDrops | kernel/nvme/admin.c:577-581 | `used` is the number of creates, up to the number supported |
| IoQueues.CreateRefusedIff | kernel/nvme/admin.c:577-592 | create finds no pair iff there have been that many creates |
| IoAdmin.RestAfterRun | kernel/nvme/admin.c:564-765 | when all operations have returned, the marks tell which pairs are live |
| IoAdmin.CreateAddsPair | kernel/nvme/admin.c:582-677 | create marks one unmarked pair and adds its two queues, in the two buffers just allocated, to the device, nothing else |
| IoAdmin.DeleteSafeIff | kernel/nvme/admin.c:699-763 | what delete does after its test keeps the invariant iff the pair is live when it starts, in whatever stage of creates and deletes it starts; the test lets more stages through |
| IoAdmin.SecondDelete | kernel/nvme/admin.c:699-763 | two deletes of one pair at once: two commands rejected, both buffers freed twice; one after the other they are one |
| IoAdmin.DeleteAtRest | kernel/nvme/admin.c:692-765 | delete keeps marks and device in agreement and clears just its own mark |
| IoAdmin.LastPairNotReusable | kernel/nvme/admin.c:577-580 | the last pair created, once deleted, is unmarked and still cannot be created again |
| IoAdmin.TeardownConserves | kernel/nvme/admin.c:223-225 | after the delete loop nothing is marked, no queue is left, every buffer ever allocated has been freed exactly once |
| IoAdmin.QueuePairs.TakePair | kernel/nvme/admin.c:575-592 | none iff the count is used up or all are marked; else the first unmarked pair is marked; the count goes up unless used up |
| IoAdmin.QueuePairs.CreateIoQueuePair | kernel/nvme/admin.c:564-689 | two new buffers held by the pair, and just the two create commands with their addresses, the ring size and the pair's queue id sent, in that order; nothing sent or allocated when refused |
| IoAdmin.QueuePairs.CreateQueues | kernel/nvme/admin.c:593-688 | the same for the part of create outside the lock |
| IoAdmin.QueuePairs.CreateCq | kernel/nvme/admin.c:601-635 | one new buffer and one create command with its address sent |
| IoAdmin.QueuePairs.CreateSq | kernel/nvme/admin.c:647-677 | likewise for the submission queue |
| IoAdmin.QueuePairs.DeleteIoQueuePair | kernel/nvme/admin.c:692-765 | on a marked pair the two delete commands sent and the two buffers freed, in that order, the mark cleared; else nothing |
| IoAdmin.QueuePairs.DeleteAll | kernel/nvme/admin.c:223-225 | every pair deleted in turn; from a state between calls no mark, no queue on the device, every buffer freed once |
| IoOverRings.DeviceCarries | kernel/nvme/admin.c:611-677 | what the device fetched over a series of transactions has the effect of the commands asked for |
| IoOverRings.CreateOverRings | kernel/nvme/admin.c:611-677 | create's two commands through the rings leave rings, device and record of pairs in agreement, one pair added |
| IoOverRings.TeardownOverRings | kernel/nvme/admin.c:223-225 | the teardown's commands through the rings leave the device with no I/O queue |
| PageMap.Map.constructor | kernel/nvme/map.c:45-54 | an empty descriptor with all addresses zero |
| PageMap.Map.MapUserPages | kernel/nvme/map.c:110-160 | which pages are pinned, which addresses mapped, what is left in the array, what is returned, for every answer of the kernel, no memory included |
| PageMap.Map.ReleaseUserPages | kernel/nvme/map.c:90-107 | each page of the map is put once, each address unmapped once |
| PageMap.Map.UnmapAndRelease | kernel/nvme/map.c:60-69 | puts the pages the map holds, or nothing when it holds none |
| PageMap.ErrorCodes | kernel/nvme/map.c:118-154 | -ENOMEM without memory, the result of `get_user_pages` if it is not positive, the code of the first mapping that fails, else 0 |
| PageMap.Balance | kernel/nvme/map.c:96-156 | the mappings made are those before the first failure, with their addresses; those undone on release are as many as pages pinned |
| PageMap.MapUserspace | kernel/nvme/map.c:163-186 | succeeds exactly when pages are asked for, there is memory, `get_user_pages` does not fail and no page pinned fails to be mapped; -EINVAL for no pages; on every error path each pinned page has been put |
| PageMap.MapThenRelease | kernel/nvme/map.c:60-186 | mapping and later releasing leaves every pin count as it was, whatever the kernel answers; the DMA mappings undone are those made iff no pinned page failed to be mapped, and otherwise those and address 0 once for each page from the first failure on |
| PageMap.HandedOutHolds | kernel/nvme/map.c:130-186 | the map handed out holds the bus address of each page pinned and 0 after them, as many pages as asked for iff all were pinned, and as many as it counts iff any was |
| PrpTable.EnoughPagesIff | kernel/nvme/admin.c:252-254 | while the 64-bit product does not wrap, the pages asked for suffice for all that the loops read iff the device page is no smaller than the kernel's |
| PrpTable.WrappedAsksTooFew | kernel/nvme/admin.c:252-252 | an input whose product wraps and asks for too few |
| PrpTable.SeparateIff | kernel/nvme/admin.c:267-273 | all words are inside the table and no two pages share one iff an entry has at most 512 pages |
| PrpTable.InBoundsIff | kernel/nvme/admin.c:267-273 | the writes stay inside the table iff an entry has at most 513 pages |
| PrpTable.FillTable | kernel/nvme/admin.c:267-273 | word by word, for every size that stays in the table: word w < pages - 1 of an entry holds its page w + 1, word 511 its page 0 |
| PrpTable.LaidOutAt | kernel/nvme/admin.c:268-272 | page j of entry i is in word j - 1 of the entry, page 0 in word 511 |
| PrpTable.ReadsBackIff | kernel/nvme/admin.c:267-273 | all pages of all entries read back iff an entry has at most 512 |
| PrpTable.CreateHostIoBuf | kernel/nvme/admin.c:246-280 | from pinned pages to table: the words hold the bus addresses of the pages of the map returned; errors of the mapping are passed on with their codes, an empty request is one |
| HostList.ListNode.constructor | kernel/nvme/list.c:10-14 | a node in no list |
| HostList.List.constructor | kernel/nvme/list.c:23-28 | an empty circle |
| HostList.List.BypassedRepresents | kernel/nvme/list.c:53-54 | a circle with node k bypassed is the circle of the others in order |
| HostList.List.Insert | kernel/nvme/list.c:32-46 | appends the node at the tail |
| HostList.ListNext | kernel/nvme/list.c:16-21 | from the sentinel the first node of the list, from node k node k + 1, null at the end |
| HostList.ListRemove | kernel/nvme/list.c:48-62 | takes out exactly the node, keeps the order of the rest; nothing on null, a sentinel or a removed node |
| HostList.RemoveTwice | kernel/nvme/list.c:48-62 | removing twice is removing once |
| HostList.MaskRoundsDown | kernel/nvme/admin.c:170-171 | the page masks are all ones above the page, and masking rounds down to a page |
| HostList.WantedIs | kernel/nvme/admin.c:169-171 | the test is: same owner, and the base is the address rounded down to 4096 or to 65536 |
| HostList.IobufFind | kernel/nvme/admin.c:163-178 | visits each node once in order and returns the first that the caller owns with that base, null iff there is none |

## Left out

- Callers.EveryCallerServed: its runs take ids clear of unretired completions only, because otherwise it is false; `StaleIds.ServedIffClear` is about all runs.
- Command.Execute: progress is relative to a device that fetches and posts after some number of polls; the retry loop around the enqueue is not there, because from rest the first enqueue is accepted. A ring of one slot, on which that loop would not end, is shut out.
- Progress.NoDeadEnd: that a continuation exists, not that a scheduler takes it.
- IoQueues.QueueLifecycle: the device carries out each well-formed command; at most 65535 pairs (NVMe 1.4). Runs in which a delete starts while a create or another delete of the same pair is half way are not among its runs; what they do is `IoAdmin.DeleteSafeIff`.
- IoOverRings.CreateOverRings: admin commands one after the other, as `admin_init` issues them; the driver does not look at the status of the replies, and neither does the model.
- PrpTable.CreateHostIoBuf: once the mapping has been made, the request must keep the loops inside the table and the address array, and have fewer than 2^32 entries for the 32-bit counter to end; outside of that the code has no defined behaviour.
- PrpTable.EnoughPagesIff: no condition is given for products that wrap, beyond the comparison itself; `PrpTable.WrappedAsksTooFew` shows they can be wrong.
- HostList.IobufFind: the structure around a node is a field of the node instead of an enclosing structure found by its offset.
- Allocation failures outside of `map.c`, the size passed to `kcalloc` and the unset address pointer in `create_host_io_buf`: every other allocation yields a fresh buffer.
- Memory ordering and `barrier()`: each stretch under the lock is one atomic step.
- Phase, mark and id bytes are booleans; the driver only stores 0 and 1 in them.
- The reset and ready waits, doorbell addresses, `mpsmin` and the printing in `admin_init`: hardware access. Each doorbell is an abstract cell, so nothing is said about the addresses of the I/O doorbells.
- `delete_host_io_buf` when nothing is found, and `clear_host_io_list`, which frees nodes without unlinking them, so that its loop has no proof of termination.
- `admin_fpga_config`: it overwrites the number of supported pairs from a completion of another command.
- PCI probing, character devices, mmap, ioctl and user-space test code.
- The texts of the status messages, which only the indices stand for.
