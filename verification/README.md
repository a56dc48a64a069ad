# A verified model of the AMP configuration system

The repository joins a Linux kernel module and bare-metal firmware on one Zynq
chip through two shared-memory rings, and carries board-support code of its own.
This project models its algorithmic parts in Dafny and proves what they promise,
over all inputs and all runs.

* **Call graph** (`CallGraph`, `Mcount`): the profiler's two tables, one growing up
  and one growing down, with chains linked by numbers counted from the far end.
  The table agrees with the plain list of recorded calls on every arc.
* **Ring transport** (`Vring`, `RingProtocol`, `KickProtocol`, `Remoteproc`,
  `Sending`, `Channels`): the split virtqueue of VIRTIO 1.0 (sections 2.4.6 and 2.4.8) with
  16-bit free-running indices. Guest and firmware are interleaved at single memory
  steps; the firmware's calls are shown to be runs of that machine.
* **Configuration protocol** (`Config`, `ConfigDev`, `RpmsgLink`, `LinkDev`,
  `Protocol`, `SequenceWrap`): the clamped variable store, the kernel's transactions, and whole runs
  of both with messages overtaking each other.
* **Board support**: memory tests against faulty decoders and cells (`MemoryTest`),
  cache maintenance by range and by set and way (`Cache`), 64-bit timer sampling and
  the delay loop (`GlobalTimer`), number conversion and the formatter (`Numerals`,
  `Printf`), character output and chunking (`Stdio`).

Classes hold the state that the C code updates in place; each of their methods is
proved against a function on values, and the properties are proved of those
functions and of whole runs. In the protocol machines the value of a step is given
by `Next`, and `Log` keeps what an observer has seen so far.

## Premises

* All ring indices start at 0, and the guest offers only descriptors below 256 that
  it holds. That at most 256 are outstanding is then proved.
* Fewer than 2^32 kicks are unhandled at any time.
* The callee table stays within 32768 entries, both tables have room for the next
  entry, and fewer than 2^31 calls are counted for an arc.
* Variable identifiers are unique, limits are in order and initial values within
  them, and the only callbacks are `cfgCpyCB`.
* A transaction is submitted and given back only by a client that holds it and while
  it is not pending; submitting and sending is one step; sends succeed.
* Field widths in a format string stay below 2^31, arguments match their directives.
* `GlobalTimer` takes 333 ticks a microsecond, which is 666666687 Hz (the value in
  `bm_fw/bsp_xsdk/include/xparameters.h`) divided by 2000000, cut to a whole number.

`Runs` asks of each step that it is enabled and that the step is defined (`Typed`,
`Ready`); the invariants imply the second part, so it excludes no run
(`Protocol.OneResponseEach` states this for `Ready`).

## Where the code falls short

Each of these is proved with the exact condition under which the code does meet the
property.

* `vring_publish_buf` lets index 256 pass, one past the descriptor table, and then
  writes over two slots of the available ring that follows it
  (`Vring.PublishSoundExactly`); `cfgSetInd` lets the number of variables pass as an
  index (`ConfigDev.ConfigTable.SetInd`). Neither is reached through the callers
  modelled here.
* `mcount` stores through a NULL pointer exactly when no section covers the caller
  (`Mcount.Mcount`), and links break exactly beyond 32768 callee entries
  (`CallGraph.LinkWidth`).
* Sequence numbers of pending transactions collide exactly when a request is sent
  while one is outstanding that is 2^32 requests old (`Protocol.NoLapIsExact`). A run
  with never more than two outstanding leads there, and the late answer then
  completes the wrong transaction (`SequenceWrap.CollisionReachable`).
* `Xil_DCacheInvalidateRange` loses data outside its range exactly when the range is
  not empty, starts unaligned in the last line of the address space, and ends below
  2^32 (`Cache.InvalidatePreservesExactly`). It leaves covered lines as they are
  exactly when the range reaches 2^32 without starting unaligned in the last line,
  as does 0xFFFFFFE0 with length 32 (`Cache.InvalidateExposesExactly`,
  `Cache.LastLineMissed`).
* `Xil_DCacheFlushRange` ends and flushes exactly the lines of its range exactly when
  that is empty or ends by 0xFFFFFFE0 (`Cache.FlushExactly`). With an end address
  above 0xFFFFFFE0 the loop does not end (`Cache.FlushEndsExactly`); with an end that
  wraps it ends without having flushed the last line (`Cache.LastLineNotFlushed`).
* `usleep` waits fewer than 333 ticks for each microsecond exactly when its end time
  overflows (`GlobalTimer.DelayExact`, and `GlobalTimer.DelayCutShort` for such a
  call). By its own clock a microsecond has a third of a tick more, so no bound of
  whole microseconds follows (`GlobalTimer.TruncatedRate`).
* The formatter says that it prints the same as the standard one. On directives that
  end in d, x or X it does so exactly when there is no hex letter to print in lower
  case and one of three things holds (`Printf.StandardExactly`; `Printf.StandardDiffers`
  has three directives that differ). Without a point: nothing has to be filled, or the
  fill is spaces, or it is zeros on the left of a number without a sign. With a
  precision up to the number of digits, other than 0 for the number 0: nothing has to
  be filled, or the fill is spaces. With a larger precision: the fill is zeros up to a
  width that equals it, the number has no sign, and it is 0 if they go to the right.
* The walking memory tests write as many words as a word has bits. They stay inside
  the region exactly when it has that many (`MemoryTest.StaysInsideExactly`).
* A kick is held back by bit 1 of the available ring's flags, where VIRTIO 1.0
  (section 2.4.6) has bit 0: the guest's wish is met exactly when both are the same
  (`Vring.SilenceKeptExactly`).
* A read after a write returns the clamped value exactly when the variable is read
  from no cell, or written to the cell it is read from, or that cell held a value that
  clamps to the same before the write (`Config.LastWriteIsRead`, and
  `Config.StaleRead` for a store in which it does not).
* On texts the formatter prints what the standard prints exactly in the cases of
  `Printf.TextExactly`, and on characters exactly for widths of at most one
  (`Printf.CharExactly`).
* The descriptions of the 16-bit and 8-bit memory tests name 0xDEADBEEF as the default
  pattern; the code writes 0xDEAD and 0xA5 (`MemoryTest.FixedPatternExact`).
* The guard of the trace buffer compares a signed difference as unsigned; it is sound
  exactly while the write position is within the size (`Stdio.TraceGuardExact`).
* On more words than the data width can count, the incrementing memory test misses
  cells shared at a distance of 2^w (`MemoryTest.IncrementExact`), and the inverse
  address test those shared at a distance of 256 bytes, 32768 halfwords or 2^30 words
  (`MemoryTest.InverseAddressExact`, and `MemoryTest.SharingMissed` for such a
  decoder).

## Model

| member | source | states |
|---|---|---|
| CallGraph.FindFrom | bm_fw/bsp/profile/profile_cg.c:66-77 | the index found holds the key and is the first that does; -1 means that no entry has it |
| CallGraph.Walk | bm_fw/bsp/profile/profile_cg.c:126-134 | the walk along a chain ends at an entry of the chain with the callee, or there is none on the chain |
| CallGraph.ChainsPartition | bm_fw/bsp/profile/profile_cg.c:138-147 | the chains of different callers are disjoint and together cover the callee table |
| CallGraph.PushChains | bm_fw/bsp/profile/profile_cg.c:138-147 | a new chain head keeps every older entry reachable from its caller |
| CallGraph.WalkDecides | bm_fw/bsp/profile/profile_cg.c:126-135 | a walk finds the entry of exactly the arc looked for, and fails exactly when the arc has no entry |
| CallGraph.RecordKeepsInv | bm_fw/bsp/profile/profile_cg.c:115-147 | recording any call within capacity keeps: distinct keys, decreasing links, chains as a partition, distinct callees in a chain, each counter equal to the number of calls of its arc, counters summing to all calls, one entry per arc |
| CallGraph.LookupCountsCalls | bm_fw/bsp/profile/profile_cg.c:115-147 | for every arc the table yields exactly the number of recorded calls of that arc, 0 for one never called |
| CallGraph.LinkWidth | bm_fw/bsp/profile/profile.h:64-75 | links stored as short stay usable if and only if there are at most 32768 callee entries |
| Mcount.GmonParam.constructor | bm_fw/bsp/profile/profile.h:86-105 | empty tables represent the empty list of calls |
| Mcount.GmonParam.SearchPc | bm_fw/bsp/profile/profile_cg.c:66-77 | the search loop finds the caller entry of the table's abstract value |
| Mcount.GmonParam.SearchTo | bm_fw/bsp/profile/profile_cg.c:126-134 | the loop that turns end-relative links into indices and back walks the chain, and terminates |
| Mcount.GmonParam.PushTo | bm_fw/bsp/profile/profile_cg.c:138-147 | moving the table's start down and writing a new entry is a push on the abstract value; end-relative links keep their meaning |
| Mcount.GmonParam.Count | bm_fw/bsp/profile/profile_cg.c:115-151 | a recorded call appends to the list of calls, and the invariant ties table and list again |
| Mcount.Mcount | bm_fw/bsp/profile/profile_cg.c:81-158 | the first section whose address range holds the caller records the call, and the tables of all others stay as they are; exactly when no range holds it nothing is recorded and the final store goes through NULL |
| Vring.IndexEquality | bm_fw/src/virtio_ring.c:87-94 | 16-bit indices of counters less than 2^16 apart are equal if and only if the counters are |
| Vring.SlotOfIndex | bm_fw/src/virtio_ring.c:99-108 | cutting an index to 16 bits and then to the ring size gives the slot of the unbounded counter, also after the increment |
| Vring.RingIsQueue | bm_fw/src/virtio_ring.c:83-112 | the ring refines an unbounded queue: empty if and only if the indices are equal, and the slot at the tail holds the oldest entry |
| Vring.WindowPut | bm_fw/src/virtio_ring.c:122-149 | writing the next slot overwrites no entry still in the window |
| Vring.VringDev.GetBuf | bm_fw/src/virtio_ring.c:83-112 | -1 and no change when nothing is available, otherwise the head of the available ring is taken |
| Vring.PublishSoundExactly | bm_fw/src/virtio_ring.c:128-144 | publishing leaves what the guest offered alone, and gives back an existing descriptor, if and only if the index lies in the table; the guard also admits 256 |
| Vring.SilenceKeptExactly | bm_fw/src/virtio_ring.c:161-168 | a kick is held back as the guest asks if and only if bits 0 and 1 of the flags are the same |
| Vring.VringDev.PublishBuf | bm_fw/src/virtio_ring.c:120-170 | entry written, index moved, NEXT flag cleared on that descriptor only, kick as asked unless bit 1 of the flags holds it back; indices above 256 refused; 256 goes on after clearing slots 4 and 5 of the available ring instead |
| Vring.VringDev.HasAvailable | bm_fw/src/virtio_ring.c:175-180 | tells whether a buffer is available |
| Vring.Layout | bm_fw/src/virtio_ring.c:55-78 | descriptors, available ring and used ring follow each other without overlap, the used ring at the next 4096-byte boundary, and the length spans all three |
| RingProtocol.StepKeepsInv | bm_fw/src/virtio_ring.c:83-170 | every single memory step of guest or firmware, in any order, keeps descriptor conservation, index correspondence and buffer contents |
| RingProtocol.RunKeepsInv | bm_fw/src/remoteproc.c:181-217 | the invariant holds after every run |
| RingProtocol.Delivery | bm_fw/src/remoteproc.c:181-245 | in every interleaving the guest collects exactly the published messages in order, the firmware finds exactly the offered ones in order, and at most 256 are under way, however often the indices wrap |
| RingProtocol.DeliveryComplete | bm_fw/src/virtio_ring.c:175-180 | a side sees its ring empty if and only if everything sent to it has arrived |
| RingProtocol.OneHolder | bm_fw/src/remoteproc.c:181-297 | in every reachable state each descriptor is in exactly one of: guest's free list, guest's hand, available ring, firmware's hand, used ring |
| RingProtocol.TailMeetsUsed | bm_fw/src/remoteproc.c:181-297 | between calls the used index equals the available tail: the firmware has published the descriptors it took, in that order |
| KickProtocol.RxStepKeepsInv | bm_fw/src/remoteproc.c:153-178 | every step of guest, interrupt or drain keeps the relation between kick counters and ring |
| KickProtocol.NoLostKick | bm_fw/src/remoteproc.c:153-178 | outside a drain, equal counters mean that all messages announced before the last kick have been found, in order |
| KickProtocol.EveryKickHandled | bm_fw/src/remoteproc.c:153-178 | for each kick of a run: once the firmware is outside a drain with equal counters, all that had been announced when the kick was sent has been found |
| KickProtocol.CounterEquality | bm_fw/src/remoteproc.c:159-164 | the wrapping 32-bit counters are equal if and only if no kick is unhandled |
| KickProtocol.RingRunReaches | bm_fw/src/remoteproc.c:166-173 | a run of firmware steps on the ring is a run of the kick protocol inside a drain |
| Remoteproc.DrainReaches | bm_fw/src/remoteproc.c:166-173 | the reading loop is a run of get, entry and publish steps that finds all waiting messages in order |
| Remoteproc.TaskReaches | bm_fw/src/remoteproc.c:159-178 | a call that finds a kick is the run from its beginning through its reads to its end |
| Remoteproc.SettledReaches | bm_fw/src/remoteproc.c:114-178 | from every state outside a drain the firmware alone, with no step of the guest, gets to equal counters, and has then found all that was announced before the last kick |
| Sending.SendIsRingRun | bm_fw/src/remoteproc.c:181-245 | every interleaving of calls and guest steps is a run of the ring protocol, in which the messages sent are those of the calls that returned |
| Sending.CallsDelivered | bm_fw/src/remoteproc.c:181-245 | in every interleaving of sending calls and guest steps Linux collects exactly the source, destination and data cut to 496 bytes of the calls, in their order, and all of them once its ring is empty |
| Channels.CreateKeepsInv | bm_fw/src/remoteproc.c:307-335 | a new channel takes the first free entry with a fresh address and the broadcast peer; with five channels there is none left |
| Channels.DispatchFindsTarget | bm_fw/src/remoteproc.c:270-291 | the search touches only the channel with the destination's address |
| Channels.ReceiveKeepsInv | bm_fw/src/remoteproc.c:270-291 | at most one callback runs, that of the live channel addressed; it becomes up and remembers the sender; no other channel changes; peers and states match the whole history of events |
| Channels.CallbackRuns | bm_fw/src/remoteproc.c:270-291 | after any history a message runs exactly the callback that the channel with its address was created with, and changes nothing when no such channel was created |
| Channels.AddressesDistinct | bm_fw/src/remoteproc.c:326-328 | live channels have pairwise distinct addresses |
| Channels.DispatchMovesForward | bm_fw/src/remoteproc.c:273-281 | a message leaves unused entries unused and channels that are up up, brings no other state than announced or up, and changes no address |
| Remoteproc.Cut | bm_fw/src/remoteproc.c:193-207 | the message carries source and destination as given, and the data itself or its first 496 bytes |
| Remoteproc.AnnouncementTells | bm_fw/src/remoteproc.c:338-347 | an announcement reads back as the first 32 characters of the name, the address and the flag for a new service |
| Remoteproc.SendIsRun | bm_fw/src/remoteproc.c:181-217 | one call of `__send_message` is the run get, fill, entry, publish of the ring protocol, after which the message counts as sent and lies in its buffer |
| Remoteproc.ReadIsRun | bm_fw/src/remoteproc.c:248-297 | one call of `read_message` is the run get, entry, publish, and finds the content of the oldest buffer |
| Remoteproc.Transport.SendMessage | bm_fw/src/remoteproc.c:181-217 | returns 1 and changes nothing without a buffer, otherwise fills and publishes the head buffer and kicks once unless held back |
| Remoteproc.Transport.RpmsgSend | bm_fw/src/remoteproc.c:355-364 | only a live channel sends, from its own address to the sender of the last message it got, or to all before the first; without a buffer nothing changes |
| Remoteproc.Transport.CreateCh | bm_fw/src/remoteproc.c:307-349 | the channel created is the next one, with the callback and the first 32 characters of the name given, or none when the table is full; its name and address are sent to Linux's announcement address |
| Remoteproc.Transport.Deliver | bm_fw/src/remoteproc.c:270-291 | the loop over the table computes the receive function |
| Remoteproc.Transport.ReadMessage | bm_fw/src/remoteproc.c:248-297 | the oldest message is received by its channel and its descriptor published without a kick; an empty ring changes nothing |
| Remoteproc.Transport.Drain | bm_fw/src/remoteproc.c:166-173 | all waiting messages are received in order, and none is left |
| Remoteproc.Transport.TxvringIrq | bm_fw/src/remoteproc.c:132-135 | one more kick is unhandled |
| Remoteproc.Transport.RxvringIrq | bm_fw/src/remoteproc.c:153-157 | one more kick is unhandled, as after the step Kick of the kick protocol |
| Remoteproc.Transport.TxvringTask | bm_fw/src/remoteproc.c:137-151 | handles one kick if there is one |
| Remoteproc.Transport.RxvringTask | bm_fw/src/remoteproc.c:159-178 | with a kick unhandled, handles it and drains the ring; without one, does nothing |
| Remoteproc.Transport.RpmsgPoll | bm_fw/src/remoteproc.c:114-120 | returns 0 if and only if neither counter is behind, and brings each counter one kick nearer |
| Remoteproc.Transport.PollUntilIdle | bm_fw/src/main.c:138-142 | with a quiet guest polling ends after the larger number of unhandled kicks plus one, with every waiting message received in order if there was a receive kick; in the kick protocol it is a run of the firmware after which all that was announced before the last kick has been found |
| Config.ClampInRange | bm_fw/src/config.c:406-410 | clamping lands within the limits for every value if and only if the limits are in order, and keeps values already within |
| Config.ClampNearest | bm_fw/src/config.c:406-410 | with limits in order no value within them is nearer than the clamped one; above the maximum it is the maximum, below the minimum the minimum |
| Config.WriteStoresNearest | bm_fw/src/config.c:196-205 | a write request stores the nearest value within the variable's limits |
| Config.SetEffect | bm_fw/src/config.c:399-417 | a set stores the clamped value, copies it out if asked, and changes nothing else |
| Config.SetByIdEffect | bm_fw/src/config.c:380-392 | setting by identifier sets exactly the variable with that identifier |
| Config.RefreshOwn | bm_fw/src/config.c:446-460 | with unique identifiers the read callback, which searches by identifier, updates its own variable |
| Config.HandleKeeps | bm_fw/src/config.c:140-254 | every request leaves every variable within its limits and changes at most the value of the variable it writes or reads |
| Config.HandleAnswers | bm_fw/src/config.c:140-254 | every request gets the one kind of reply that fits it, with its own sequence number and index, the right value, and text cut to 76 characters, whatever the reply buffer held |
| Config.ReadAfterWrite | bm_fw/src/config.c:198-213 | a read right after a write returns the clamped value if and only if the store before the write reads back: no cell is read from, or the write goes to it, or it clamps to the same |
| Config.StaleRead | bm_fw/src/config.c:446-460 | a variable read from a cell that nothing writes returns the cell's old content after a write |
| Config.ReadReturns | bm_fw/src/config.c:198-213 | a read returns the clamped content of the cell the read callback copies from, or without one the stored value |
| Config.SourceStays | bm_fw/src/config.c:140-460 | no run that sets neither the variable nor its cell changes what a read of it depends on |
| Config.LastWriteIsRead | bm_fw/src/config.c:198-213 | after any run of requests, sets by identifier and application writes that set neither the variable nor the cell it is read from, a read returns the last value written, clamped, if and only if the store before the write reads back, for all callbacks |
| Config.PerformAll | bm_fw/src/config.c:140-460 | over every run of requests, sets and application writes all variables stay within their limits and keep identity, text and limits |
| ConfigDev.ConfigTable.SetInd | bm_fw/src/config.c:399-417 | on a valid index stores the value, or the limit it is beyond; refuses negative and large indices, and reaches past the table at the number of variables |
| ConfigDev.ConfigTable.SetId | bm_fw/src/config.c:380-392 | reports whether the identifier exists and computes the set by identifier |
| ConfigDev.ConfigTable.CopyOut | bm_fw/src/config.c:446-460 | the write callback copies the value to its cell |
| ConfigDev.ConfigTable.CopyIn | bm_fw/src/config.c:446-460 | the read callback computes the refresh |
| ConfigDev.ConfigTable.MsgHandler | bm_fw/src/config.c:140-254 | computes store and reply of the request function, and sends that reply |
| RpmsgLink.Find | kernel_mod/rpmsg_link.c:197-208 | finds the first pending transaction with the sequence number |
| RpmsgLink.SubmitKeeps | kernel_mod/rpmsg_link.c:397-401 | making a held transaction pending keeps both lists duplicate-free and disjoint |
| RpmsgLink.AllocKeeps | kernel_mod/rpmsg_link.c:419-442 | a transaction handed out is in neither list |
| RpmsgLink.ReturnKeeps | kernel_mod/rpmsg_link.c:445-452 | giving back keeps both lists duplicate-free and disjoint |
| RpmsgLink.CompleteKeeps | kernel_mod/rpmsg_link.c:195-215 | a response removes exactly the transaction found from the pending list |
| LinkDev.Transaction.Accept | kernel_mod/rpmsg_link.c:219-279 | the switch over the response type fills the fields of the transaction as the value function says, whose texts `Protocol.CompletedHoldsAnswer` reads back |
| LinkDev.Link.AccessVar | kernel_mod/rpmsg_link.c:348-414 | builds the request for the access and makes the transaction pending; a text that is no number leaves everything unchanged |
| LinkDev.Link.AddPending | kernel_mod/rpmsg_link.c:456-474 | takes the next sequence number and puts the transaction first in the pending list |
| LinkDev.Link.FindPending | kernel_mod/rpmsg_link.c:197-208 | the search loop computes the find function |
| LinkDev.Link.Callback | kernel_mod/rpmsg_link.c:177-290 | completes the matching transaction; wrong sizes and unknown numbers change nothing |
| LinkDev.Link.AllocTrans | kernel_mod/rpmsg_link.c:419-442 | hands out the head of the unused list or a new transaction, cleared |
| LinkDev.Link.ReturnTrans | kernel_mod/rpmsg_link.c:445-452 | clears the transaction and puts it first in the unused list |
| Protocol.FindsIssuer | kernel_mod/rpmsg_link.c:195-208 | the search by sequence number finds the transaction that issued that very request |
| Protocol.DeliverEffect | kernel_mod/rpmsg_link.c:195-290 | a response completes exactly the transaction that issued its request, and changes no other |
| Protocol.StepKeepsInv | kernel_mod/rpmsg_link.c:177-474 | every step of client, kernel, firmware and network, in any order, keeps the correlation invariant |
| Protocol.PendingDistinct | kernel_mod/rpmsg_link.c:397-401 | in every reachable state pending transactions have pairwise distinct sequence numbers |
| Protocol.OneResponseEach | bm_fw/src/config.c:140-254 | in every reachable state each request is at exactly one stage, and its one response is the firmware's answer under its own number |
| Protocol.NoLapIsExact | kernel_mod/rpmsg_link.c:456-466 | the next sequence number is unused among the pending ones if and only if no outstanding request is 2^32 requests old |
| SequenceWrap.OneMore | kernel_mod/rpmsg_link.c:397-414 | with one request waiting, another is sent, served and answered, and then only the first is outstanding |
| SequenceWrap.CollisionReachable | kernel_mod/rpmsg_link.c:456-466 | from every start with two transactions a run leads to a state with one pending transaction whose number comes next; a second one sent then gets it too, and the answer to the first completes the second |
| Protocol.CompletedHoldsAnswer | kernel_mod/rpmsg_link.c:219-279 | every completed transaction holds the answer to its own request: a text that reads as the number and a newline, name or description cut to 76 characters, or an error that names index and message |
| Protocol.AccessAnswered | kernel_mod/rpmsg_link.c:367-396 | from the client's access to its buffer: asking for name, description, value, minimum or maximum of a variable gets exactly that, and a write stores the parsed number or the limit it is beyond |
| RpmsgLink.DecimalSpells | kernel_mod/rpmsg_link.c:233-238 | a printed number is a minus exactly for a negative one and digits that denote it, without a leading zero |
| RpmsgLink.SpellsOne | kernel_mod/rpmsg_link.c:233-238 | no text reads as two numbers |
| RpmsgLink.FillOther | kernel_mod/rpmsg_link.c:241-279 | a text too long for the buffer gives -EINVAL and a message, an unknown type -1 and a text that names index and message |
| Protocol.CountArrives | kernel_mod/rpmsg_link.c:227-232 | once a request for the number of variables is completed, the kernel's copy is the length of the firmware's table, in every later state |
| MemoryTest.ReadsBackIffPasses | bm_fw/bsp/common/xil_testmem.c:129-155 | filling and reading back finds no difference if and only if words sharing a cell have equal values and no cell alters its value |
| MemoryTest.RotateOneHot | bm_fw/bsp/common/xil_testmem.c:906-939 | rotating a one-hot word moves its bit one place, around the end of the width |
| MemoryTest.Increment | bm_fw/bsp/common/xil_testmem.c:123-160 | returns 0 if and only if the counting pattern passes |
| MemoryTest.WalkOnes | bm_fw/bsp/common/xil_testmem.c:167-216 | returns 0 if and only if every walking-one pass passes |
| MemoryTest.WalkZeros | bm_fw/bsp/common/xil_testmem.c:221-269 | returns 0 if and only if every walking-zero pass passes |
| MemoryTest.InverseAddress | bm_fw/bsp/common/xil_testmem.c:275-300 | returns 0 if and only if the inverted addresses pass |
| MemoryTest.FixedPattern | bm_fw/bsp/common/xil_testmem.c:305-345 | returns 0 if and only if the constant pattern passes |
| MemoryTest.FixedPatternExact | bm_fw/bsp/common/xil_testmem.c:305-345 | the fixed pattern test passes if and only if every cell keeps the pattern asked for, or by default 0xDEADBEEF, 0xDEAD or 0xA5 |
| MemoryTest.TestMem | bm_fw/bsp/common/xil_testmem.c:95-360 | a selected subtest decides alone; all subtests together return 0 if and only if each would; the addresses written are those of the region, or of as many words as a word has bits in a walking test |
| MemoryTest.StaysInsideExactly | bm_fw/bsp/common/xil_testmem.c:167-265 | the addresses written by a test lie in the region if and only if it runs no walking test or has as many words as a word has bits |
| MemoryTest.IncrementExact | bm_fw/bsp/common/xil_testmem.c:420-452 | on sound cells, for each width, the incrementing test passes if and only if words sharing a cell are a multiple of 2^w apart |
| MemoryTest.Increment32Exact | bm_fw/bsp/common/xil_testmem.c:123-156 | the 32-bit incrementing test on sound cells passes if and only if the decoder is injective on the region |
| MemoryTest.InverseAddress32Exact | bm_fw/bsp/common/xil_testmem.c:275-296 | the 32-bit inverse address test on sound cells passes if and only if different addresses reach different cells, for any size |
| MemoryTest.InverseAddressExact | bm_fw/bsp/common/xil_testmem.c:548-570 | for each width the inverse address test on sound cells passes if and only if words that share a cell lie a multiple of 256 bytes, 32768 halfwords or 2^30 words apart |
| MemoryTest.SharingMissed | bm_fw/bsp/common/xil_testmem.c:683-830 | with 8 bits and 257 words a decoder that ignores all but 8 address bits passes both tests |
| MemoryTest.BothTestsAgree | bm_fw/bsp/common/xil_testmem.c:123-296 | for each width, up to 256 bytes, 32768 halfwords or 2^30 words both tests pass exactly the memories in which no two words share a cell |
| MemoryTest.WalkOnesExact | bm_fw/bsp/common/xil_testmem.c:167-212 | for any decoder and cells the walking ones test passes if and only if the first w words are separate and return all one-hot words |
| MemoryTest.WalkZerosExact | bm_fw/bsp/common/xil_testmem.c:221-265 | likewise for walking zeros and the complements of one-hot words |
| MemoryTest.StuckBitDetected | bm_fw/bsp/common/xil_testmem.c:167-265 | both walking tests fail for any single bit of any of the first w words stuck at 0 or 1, whatever else is wrong, also in the same word |
| MemoryTest.WalksOnSoundCells | bm_fw/bsp/common/xil_testmem.c:167-265 | on sound cells both walking tests pass if and only if the first w words are separate |
| Cache.FlushWritesBack | bm_fw/bsp/cortexa9/xil_cache.c:410-427 | flushing a line through both levels leaves its latest value in memory and no copy |
| Cache.DataCache.FlushEdges | bm_fw/bsp/cortexa9/xil_cache.c:318-346 | exactly the partly covered edge lines are flushed, also when both are the same line |
| Cache.DataCache.InvalidateRange | bm_fw/bsp/cortexa9/xil_cache.c:305-370 | the loop terminates and each line is flushed, discarded or left alone by its position, with 32-bit wrap-around |
| Cache.InvalidatePreservesExactly | bm_fw/bsp/cortexa9/xil_cache.c:305-370 | over all 32-bit calls, no byte outside the range changes its coherent value, for every cache state, if and only if the range is empty, does not start inside the last line, or reaches 2^32 |
| Cache.InvalidateExposesExactly | bm_fw/bsp/cortexa9/xil_cache.c:336-365 | over all 32-bit calls, covered lines show memory afterwards and partly covered ones are written back, if and only if the range is empty, ends below 2^32, or starts inside the last line |
| Cache.LastLineMissed | bm_fw/bsp/cortexa9/xil_cache.c:336-365 | at 0xFFFFFFE0 with length 32 the covered line stays as it is |
| Cache.DataCache.FlushRange | bm_fw/bsp/cortexa9/xil_cache.c:444-483 | every call whose loop ends terminates and flushes exactly the lines it visits |
| Cache.FlushExactly | bm_fw/bsp/cortexa9/xil_cache.c:444-483 | over all 32-bit calls, the loop ends and visits exactly the lines that the range meets, if and only if the range is empty or ends by 0xFFFFFFE0 |
| Cache.VisitedOnce | bm_fw/bsp/cortexa9/xil_cache.c:455-480 | no line is visited twice |
| Cache.WritesBackExactly | bm_fw/bsp/cortexa9/xil_cache.c:444-483 | the call ends with no value changed and the latest one in memory on every line that the range meets, for every cache state, under the same condition |
| Cache.LastLineNotFlushed | bm_fw/bsp/cortexa9/xil_cache.c:459-479 | at 0xFFFFFFE0 with length 32 the loop ends without having visited the line of the range |
| Cache.FlushEndsExactly | bm_fw/bsp/cortexa9/xil_cache.c:459-479 | the loop ends if and only if the range is empty or the end address, cut to 32 bits, is at most 0xFFFFFFE0 |
| Cache.SetWayOperands | bm_fw/bsp/cortexa9/xil_cache.c:911-977 | for a cache of four ways and 32-byte lines the loops emit the operands row by row, although the way wraps: one for each set and way, as many as the cache has lines |
| Cache.RowsMembers | bm_fw/bsp/cortexa9/xil_cache.c:952-972 | the operands emitted are exactly those of a set and a way |
| Cache.RowsOnce | bm_fw/bsp/cortexa9/xil_cache.c:952-972 | each operand is emitted once |
| GlobalTimer.Timer.Round | bm_fw/bsp/cortexa9/xtime_l.c:112-116 | equal upper halves vouch for the value between them; unequal ones have grown |
| GlobalTimer.Timer.GetTime | bm_fw/bsp/cortexa9/xtime_l.c:106-119 | terminates for every monotone counter and returns a value that the counter had during the call |
| GlobalTimer.WholeSample | bm_fw/bsp/cortexa9/xtime_l.c:114-118 | no torn read: joined halves are the counter's own value when the upper half did not change around the read |
| GlobalTimer.Timer.Usleep | bm_fw/bsp/cortexa9/usleep.c:77-89 | at least 333 ticks for each microsecond pass if and only if the end time does not overflow |
| GlobalTimer.DelayExact | bm_fw/bsp/cortexa9/usleep.c:81-86 | waiting for the end time cut to 64 bits waits long enough if and only if nothing was cut off |
| GlobalTimer.DelayCutShort | bm_fw/bsp/cortexa9/usleep.c:81-86 | a call at the counter's last value may return at once |
| Numerals.NumeralDenotes | bm_fw/bsp/cortexa9/xil_printf.c:98-102 | the digits of a number denote it in its base, without a leading zero |
| Numerals.NumeralShort | bm_fw/bsp/cortexa9/xil_printf.c:84-105 | a number below 10^k has at most k digits in base 10 or more |
| Numerals.GetNum | bm_fw/bsp/cortexa9/xil_printf.c:124-135 | reads the longest run of digits at the position and returns the number it denotes |
| Numerals.RoundTrip | bm_fw/bsp/cortexa9/xil_printf.c:80-135 | `getnum` on the digits that `outnum` emits in base 10 gives back the number and consumes exactly them |
| Printf.PutDigits | bm_fw/bsp/cortexa9/xil_printf.c:98-102 | the digit loop fills at most ten places with the digits in reverse |
| Printf.OutNum | bm_fw/bsp/cortexa9/xil_printf.c:80-117 | prints sign and digits, padded on the side of the left flag |
| Printf.NumberTextExact | bm_fw/bsp/cortexa9/xil_printf.c:88-105 | the text of every 32-bit number denotes it, signed in base 10 and unsigned in base 16, without a leading zero, within the buffer |
| Printf.OutS | bm_fw/bsp/cortexa9/xil_printf.c:55-72 | prints the text up to the given number of characters, padded by the full length |
| Printf.Padding | bm_fw/bsp/cortexa9/xil_printf.c:38-48 | fills up to the width, on the side asked for only |
| Printf.SpecExtent | bm_fw/bsp/cortexa9/xil_printf.c:176-216 | a directive's text is the longest run of digits, minus, point and l behind the percent sign |
| Printf.MeaningOnFlag | bm_fw/bsp/cortexa9/xil_printf.c:206-216 | a flag character changes the meaning of a directive's text by its own effect only |
| Printf.MeaningOnNumber | bm_fw/bsp/cortexa9/xil_printf.c:185-197 | a number sets width and padding before a point and the text limit after one |
| Printf.NoLeak | bm_fw/bsp/cortexa9/xil_printf.c:38-48 | a width left over from an earlier directive, which the code does not reset, changes nothing of what a directive prints |
| Printf.ScanDirective | bm_fw/bsp/cortexa9/xil_printf.c:169-216 | the loop around `try_next` finds the end of the directive and the parameters its whole text stands for, except that without a width the former one stays |
| Printf.XilPrintf | bm_fw/bsp/cortexa9/xil_printf.c:152-279 | terminates and prints what the recursive denotation of the format string says, whatever the parameters hold at first and each directive leaves in them |
| Printf.LayoutExactly | bm_fw/bsp/cortexa9/xil_printf.c:38-117 | for every width, flag and precision, sign and digits are laid out as the standard does if and only if the stated condition on those holds |
| Printf.StandardExactly | bm_fw/bsp/cortexa9/xil_printf.c:25-48 | for every directive on a number that ends in d, x or X, the formatter prints what the standard prints if and only if it has no hex letter to print in lower case and the layouts agree |
| Printf.TextExactly | bm_fw/bsp/cortexa9/xil_printf.c:55-72 | for every directive a text is printed as the standard prints it if and only if it is not cut where it has to be filled, the fill is not zeros, and neither a bare point nor more than 32767 characters are involved, up to texts of spaces |
| Printf.CharExactly | bm_fw/bsp/cortexa9/xil_printf.c:221-275 | a character is printed alone, as the standard does if and only if the width is at most one; a percent sign stands for itself; a character without meaning prints nothing and takes no argument |
| Printf.StandardDiffers | bm_fw/bsp/cortexa9/xil_printf.c:80-117 | 171 as %x, 5 as %.3d and -42 as %05d print something else |
| Stdio.Console.OutByte | bm_fw/src/main.c:294-308 | a newline or a full buffer writes the buffered text to descriptor 2, which extends the trace exactly when there is room; otherwise the character is kept; the chunks written and the buffer are together all characters given |
| Stdio.Console.SendChunks | bm_fw/src/main.c:342-349 | the messages sent concatenate to the data, each of 1 to 495 bytes and all but the last of 495 |
| Stdio.Console.Write | bm_fw/src/main.c:317-372 | data goes to Linux and to the trace buffer as the descriptor says, whole or not at all, and the trace position never reaches the size; the trace is that of all calls so far |
| Stdio.TraceComplete | bm_fw/src/main.c:353-366 | while everything written fits, the trace is all of it in order |
| Stdio.TraceGuardExact | bm_fw/src/main.c:358-362 | the guard keeps every copy inside the trace buffer if and only if the position is within the size |
| Stdio.ChunksFit | bm_fw/src/remoteproc.c:201-207 | no chunk is cut when it is sent |

## Left out

- Count widths: the call-graph counter of an arc is unbounded here; the code's is a 32-bit long.
- Remoteproc.Transport.SendMessage: models one attempt of `block_send_message`; its retry loop waits for the guest, which `Sending.CallsDelivered` covers by letting a call begin only when a buffer is available.
- Remoteproc.Transport.RpmsgSend: one attempt, as for SendMessage.
- Remoteproc.Transport.CreateCh: the announcement is one attempt, as for SendMessage; characters are cut to bytes.
- ConfigDev.ConfigTable.SetInd: at the number of variables the code stores behind the table and runs a callback read from there; the model reports `BeyondTable` and leaves the state alone, since what lies there is not known.
- LinkDev.Link.AccessVar: the parser `kstrtol` is a parameter; the send itself is a step of the protocol machine and does not fail, where a failed one would leave its transaction pending.
- Remoteproc.Transport.ReadMessage: names the callback that runs but not what it does; a callback that creates a channel or sends is a later step here.
- RingProtocol.Delivery: a message is written to its buffer in one step; the copy of its bytes is not split.
- `get_n_vars` is modelled by its request and its response only, not its waiting.
- LinkDev.Transaction.Accept: the buffer is its text up to the end mark, not an array of 400 bytes.
- MemoryTest.TestMem: the three width variants are one method with the width as a parameter; the source has them as three copies.
- Cache.DataCache.InvalidateRange: a dirty first-level line goes to the second level only if that holds the line; line fills and evictions during the call are not modelled.
- Cache.SetWayOperands: only cache-size registers of four ways and 32-byte lines, which is what the wrapping way constant is made for.
- GlobalTimer.Timer.Usleep: termination takes a counter that would get to its last value if it were read for long enough.
- Printf.XilPrintf: directives ending in a backslash and formats ending within a directive are excluded.
- Printf.OutNum: the most negative number is negated without overflow.
- Vring.VringDev.PublishBuf: the flags of the available ring are read once, as the field holds them; the guest's writes to them are not steps.
- `cfgFloatMilliCB` and application callbacks other than `cfgCpyCB`.
- Barriers, interrupt masks, debug output, cache errata switches, L2 maintenance by way, interrupt-controller set-up and the resource table.
- `kernel_mod/cfg_mgmt_main.c` (debugfs files and waiting) and `bm_stdio_mod` (a character device).
- MMU, UART, reset, exception vectors, performance counters, histogram profiling and byte-swap helpers: register accesses and single-branch facts.
