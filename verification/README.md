# Verified model of the shuriken kernel

The shuriken kernel of ninjastorms is small, but several of its parts work only because
pieces of mutable state agree over whole runs: a free list threaded through the heap it
manages, descriptor and packet rings shared between a network card, an interrupt handler and
a task, a ready queue that must never lose a task, and ARP tables that hosts fill from each
other's frames. This project states what these parts promise and proves it with Dafny.
`dafny verify dfyconfig.toml` checks everything.

The code that changes state is modelled by classes, arrays and loops of the same shape; each
of their methods is proved against a pure specification, and the main results are lemmas over
that specification, for every run.

| file | what it models |
|---|---|
| `Collections.dfy` | options, reversal of sequences, sizes of sets |
| `Words.dfy` | 32-bit words, the bitwise `&`, little-endian words in a byte memory |
| `Heap.dfy` | the heap as a sequence of blocks and a free list; histories of calls |
| `Malloc.dfy` | `sbrk`, `malloc`, `free` on a memory of 2^32 bytes, headers and links included |
| `HeapHistory.dfy` | arbitrary histories of requests, releases and client stores |
| `RxPath.dfy` | the receive path as a machine of three parties: card, interrupt handler, task |
| `RxDriver.dfy` | the statements of the driver and the task, each a move of that machine |
| `Transmit.dfy` | the transmit ring and `e1000_send_packet`, with a card that works on its own |
| `Ethernet.dfy` | `ethernet_send` over the allocator's memory and the transmitting card |
| `Scheduler.dfy` | ready queue, task table and saved contexts under events |
| `ContextSwitch.dfy` | the scheduler's ring buffer and the register moves of an interrupt |
| `ByteOrder.dfy` | `htonl` and its relatives, on values and on the bytes of memory |
| `ArpTable.dfy` | the ten-slot table of `routing.c` |
| `ArpCache.dfy` | its meaning as a bounded map with ageing |
| `Arp.dfy` | building, receiving and answering ARP frames; RFC 826 |
| `ArpNetwork.dfy` | any number of hosts running this code on an unreliable network |
| `ArpWire.dfy` | ARP frames through `ethernet_send` to the card's wire |
| `Ipv4.dfy` | `ipv4_send` and its wait for an ARP reply, as moves of that network |
| `PciMmio.dfy` | unaligned PCI stores made of aligned word accesses |
| `Printf.dfy` | `vprintf` against a recursive rendering of the format |

## Main results and their premises

**Heap.** The memory itself is an array of 2^32 bytes; `Malloc.Holds` says that it holds a
heap: headers record extents, and the links visit exactly the free list. Over any orderly
history (`HeapHistory.Replay`) the memory holds the heap the abstract calls lead to, and
every byte that belonged to clients throughout holds what was last stored in it. Premises:
`free` gets live blocks only, and requests are sound. The second is a real limit of the code,
whose sums wrap at 2^32. `Malloc.Outcome`, the contract of `malloc`, gives its stores for every
request; `Malloc.UnsoundIsPastBreak` says that the unsound requests are exactly those answered
with a pointer past the break. The promise of `size` bytes is kept exactly if no sum wraps,
apart from the requests within 15 bytes of 2^32, which an exhausted heap refuses;
`Malloc.PromiseBroken` is a request for which it is not. `Malloc.BreakRises` is about the test
in `sbrk`.

**Receive path.** The card may move between any two statements of the handler or the task; an
interrupt is atomic with respect to the task. As section 3.2.6 of Intel's PCI/PCI-X Family of
Gigabit Ethernet Controllers Software Developer's Manual has it, the card fills descriptors in
order while head differs from tail, and sets the done bit after data and length. Frames have at
most 8192 bytes. `RxPath.History` are all interleavings; `RxDriver` shows that the code makes
only moves of this machine.

**Scheduler.** No task is lost with up to 15 tasks. `add_task` admits 16, and with 16 the ring
drops one: `Scheduler.LostExactlyWithSixteen` gives both directions, and
`Scheduler.SixteenTasksLoseOne` a run that does it. Interrupts come in user
mode and after the first dispatch. A task's context after any run is the fold of the
instructions it executed itself over what `init_task` wrote.

**ARP.** The claims hold for either answer of `is_big_endian`, and for a clock that may tick
between any two readings. Time zero means "free" and a free slot has address zero, so the code
goes wrong for a sender without an address, and for one learned while the clock still shows
zero. Neither is a premise here. `ArpCache.FindRefinesCache`, `LookupRefinesCache`,
`UpdateRefinesCache` and `AddRefinesCache` each give the exact condition under which the
operation does to the cache what it should, and `Arp.ReceiveFollowsRfc826` the one under which
`arp_receive` does what RFC 826 says. `Arp.ProbeStampsFreeSlots` and `Arp.FirstSecondForgets`
are frames for which it does not. In the network of `ArpNetwork` the addresses of hosts are
nonzero and distinct; a clock at zero does no harm to the truth of bindings.

**Frames.** `ethernet_send` is proved for a `malloc` that succeeds, the only case in which the
code is defined. A frame of 65536 bytes or more is cut short, because its length passes through
a 16-bit parameter: `Ethernet.TransmittedWhole` gives the exact bound, and
`Ethernet.NothingTransmitted` a frame of which nothing is left.

**Formats.** The arguments of `vprintf` match the conversions. The most negative values are
excluded for `%i`, `%X`, `%L` and `%Y`, where the code negates a signed number.

## Model

| member | source | states |
|---|---|---|
| Words.AndMinus16 | libc/stdlib/malloc.c:31-32 | the mask of the alignment macro rounds every 32-bit word down to a multiple of 16 |
| Heap.AlignIsRounding | libc/stdlib/malloc.c:31-32 | `ALIGN_16(size + overhead)` for every 32-bit size, including the wrapping ones |
| Heap.RoundedIsLeast | libc/stdlib/malloc.c:73 | the block size is the least multiple of 16 with room for the header, and has room for the request iff no sum wraps |
| Heap.FirstFit | libc/stdlib/malloc.c:77-88 | the position found is that of the first free block large enough, or the end of the list |
| Heap.MallocSteps | libc/stdlib/malloc.c:71-100 | malloc keeps the heap well formed, hands out a block that was not live and is large enough, changes the status of no other block, moves no block, and fails only if nothing fits and the heap is full |
| Heap.MallocTakesFirst | libc/stdlib/malloc.c:77-99 | the first free block large enough leaves the list, the others keep their order; else a new block is carved off, or the heap is full |
| Heap.BlocksTile | libc/stdlib/malloc.c:44-69 | every address from HEAP_START up to the break lies in exactly one block |
| Heap.PayloadsDisjoint | libc/stdlib/malloc.c:44-69 | payloads are aligned, inside the heap, disjoint from each other and from all headers |
| Heap.HeapGrowth | libc/stdlib/malloc.c:70-100 | in any history whose requests round to one size, the heap used is that size times the peak number of live blocks |
| Malloc.BreakRises | libc/unistd/sbrk.c:40-47 | the test in sbrk keeps the break from falling iff the sum does not wrap |
| Malloc.ClientWritesHarmless | libc/stdlib/malloc.c:44-69 | no store into client bytes can damage headers, links or the list head |
| Malloc.Unlink | libc/stdlib/malloc.c:82 | the store through `head` takes exactly block k off the list in memory and touches no client byte |
| Malloc.Push | libc/stdlib/malloc.c:106-109 | the two stores of free put the block at the front of the list in memory |
| Malloc.Extend | libc/stdlib/malloc.c:91-97 | storing the size at the old break adds one live block |
| Malloc.Allocator.Sbrk | libc/unistd/sbrk.c:38-49 | the break, errno and result in both branches, with wrapping addition |
| Malloc.Allocator.Malloc | libc/stdlib/malloc.c:71-100 | for every request all stores, the break, errno and the result; for a sound one the heap of the abstract step; first fit; when no sum wraps, a result aligned to 16 with room for the request; and the exact condition under which the promise of `size` bytes is kept |
| Malloc.Allocator.Free | libc/stdlib/malloc.c:103-110 | a live block goes to the front of the free list; client bytes keep their values |
| Malloc.UnsoundIsPastBreak | libc/stdlib/malloc.c:73-99 | a request leaves the heap in order unless it is answered with a pointer past the break, and exactly then |
| Malloc.PromiseBroken | libc/stdlib/malloc.c:73-99 | a request for all but 16 bytes of the address space gets the start of an empty heap |
| HeapHistory.PayloadKept | libc/stdlib/malloc.c:44-69 | the payload of a block belongs to its client through any history that does not return the block |
| HeapHistory.Replay | libc/stdlib/malloc.c:70-110 | after any orderly history of sound requests, releases of live blocks and client stores, the memory holds the heap of the abstract run, and every byte kept throughout holds what was last stored in it |
| RxPath.HistoryKeepsInv | kernel/network/e1000.c:219-244 | the invariant of rings, queue, locals and contents holds after every interleaving |
| RxPath.DescriptorOwnership | kernel/network/e1000.c:111-132 | done bits are set on exactly the descriptors from rx_cur to the card's head; tail is rx_cur - 1 except between the statements that advance rx_cur and write tail |
| RxPath.ExclusiveDescriptors | kernel/network/e1000.c:227-243 | the handler reads only completed descriptors and finds the card's frame there; the card never works on a descriptor the handler reads |
| RxPath.EndToEndFifo | kernel/network/network_task.c:39-92 | packets delivered, then packets queued, are byte for byte the frames taken from the card, without those refused; a frame is refused iff 127 are queued |
| RxPath.KeptInOrder | kernel/network/network_task.c:79-92 | the frames kept are those with a kept verdict, each after those kept before it, and no others |
| RxPath.HandlerDrains | kernel/network/e1000.c:227-244 | when the handler returns it has dealt with every frame the card had completed |
| RxPath.NoNullPacket | kernel/network/network_task.c:66-69 | the task never gets the null pointer of an empty queue |
| RxPath.HeldSlotUntouched | kernel/network/network_task.c:45-47 | no move of any party changes the slot the task holds |
| RxPath.HeldPacketStable | kernel/network/network_task.c:45-47 | the slot behind the returned pointer keeps length and data through any moves until the next remove_packet, before and after recv_queue_start has moved |
| RxPath.UsedPacketIsDelivered | kernel/network/network_task.c:68-69 | what the task reads is the packet that was delivered to it |
| RxDriver.ReceivePath.constructor | kernel/network/e1000.c:111-132 | what init_receive_descriptors and the zeroed queue set up is an initial state of the machine |
| RxDriver.ReceivePath.InsertPacket | kernel/network/network_task.c:79-92 | as code on the arrays, with the card moving between its statements, it makes only moves of the machine |
| RxDriver.ReceivePath.ReceivePacket | kernel/network/e1000.c:219-244 | the same for the interrupt handler; when it returns it has dealt with every frame the card has completed, those that were there when it began among them; without a card nothing happens |
| RxDriver.ReceivePath.RemovePacket | kernel/network/network_task.c:39-48 | the same for remove_packet, interrupted between any two statements; null exactly on an empty queue, which is left as it is |
| RxDriver.ReceivePath.NetworkTaskTurn | kernel/network/network_task.c:64-71 | a turn of the task's loop takes a packet exactly if its poll finds the queue not empty, and so whenever it was not empty before; it reads exactly the bytes that are delivered next |
| Transmit.TxCard.SendPacket | kernel/network/e1000.c:189-211 | on return the card owns no descriptor and has transmitted the buffer; without a card nothing happens and the result is -1 |
| Ethernet.FrameReadsBack | kernel/network/ethernet.c:43-60 | a receiver finds the addresses, the type and the payload in the frame, zeros after it, and at least 60 bytes |
| Ethernet.TransmittedWhole | kernel/network/ethernet.c:62 | a frame goes out as it is iff its length fits 16 bits |
| Ethernet.NothingTransmitted | kernel/network/ethernet.c:62 | a frame of exactly 65536 bytes is not transmitted at all |
| Ethernet.Memcpy | kernel/network/ethernet.c:52 | source bytes outside the destination arrive, whatever lies past the payload |
| Ethernet.FillPayload | kernel/network/ethernet.c:44-60 | payload and zeros are in place, whatever memory held past the payload |
| Ethernet.ClientNotFresh | kernel/network/ethernet.c:47-48 | a caller's bytes are no part of the frame's block |
| Ethernet.BorrowedKeepsLive | kernel/network/ethernet.c:47-64 | the set of live blocks is the same after sending |
| Ethernet.LaterFramesReuse | kernel/network/ethernet.c:47-64 | after one frame, frames no longer than it leave the heap exactly as it is |
| Ethernet.EthernetSend | kernel/network/ethernet.c:39-65 | the card gets header, payload and padding; the block is freed when the card is done with it; client bytes, errno and live blocks are unchanged |
| Scheduler.NoTaskLost | kernel/scheduler.c:53-128 | with at most 15 tasks made, current task and ring are a duplicate-free permutation of all tasks, after every run |
| Scheduler.LostExactlyWithSixteen | kernel/scheduler.c:97-114 | the next timer interrupt keeps every task iff at most 15 were made |
| Scheduler.SixteenTasksLoseOne | kernel/scheduler.c:97-114 | sixteen successful calls of add_task, a start and one timer interrupt lose a task |
| Scheduler.RoundRobin | kernel/scheduler.c:109-114 | a task at position p of the ring becomes current at the (p+1)-th schedule and not before, whatever add_task calls come between |
| Scheduler.PreemptedTaskReturns | kernel/scheduler.c:109-114 | a task preempted when there are k tasks (k at most 15) runs again after exactly k-1 further schedules |
| Scheduler.StacksApart | kernel/scheduler.c:102-104 | after every run, the contexts add_task made start at the entry points given and have stacks of 0x10000 bytes that are pairwise disjoint and at or below 0x3FE0000 |
| Scheduler.StartsAs | kernel/scheduler.c:75-88 | the whole context add_task made, in numbers: r0 to r12, sp, lr, pc and user mode |
| Scheduler.TaskIsolation | kernel/interrupt_handler.S:63-109 | after every run the context of each task is what its own instructions make of the context add_task made |
| Scheduler.OneStepIsolation | kernel/interrupt_handler.S:63-109 | no event changes the context of a task, except an instruction of that task itself |
| ContextSwitch.Machine.RingBufferInsert | kernel/scheduler.c:53-62 | the ring takes the task, unless 15 are in it |
| ContextSwitch.Machine.RingBufferRemove | kernel/scheduler.c:64-73 | the ring gives up its oldest task, or null if it is empty |
| ContextSwitch.Machine.InitTask | kernel/scheduler.c:75-88 | the seventeen words of the task structure decode to the initial context |
| ContextSwitch.Machine.AddTask | kernel/scheduler.c:90-107 | code and array effects are the event Add; without privilege or with 16 tasks nothing changes but errno; else there is one task more, with this entry point and its own stack |
| ContextSwitch.Machine.ScheduleTask | kernel/scheduler.c:109-114 | insert, then remove, is the abstract schedule |
| ContextSwitch.Machine.StartScheduler | kernel/scheduler.c:116-128 | dispatches the first task once, does nothing when called again, and on an empty ring leaves the null current_task through which the load faults |
| ContextSwitch.Machine.SaveCurrentTaskState | kernel/interrupt_handler.S:79-99 | the word moves store the interrupted task's registers, with pc at the banked lr less four |
| ContextSwitch.Machine.LoadCurrentTaskState | kernel/interrupt_handler.S:102-109 | the word moves load exactly the saved context of the current task |
| ContextSwitch.Machine.HandleInterrupt | kernel/interrupt.c:72-81 | of the three status bits only the timer's reschedules; the registers may be clobbered |
| ContextSwitch.Machine.IrqHandler | kernel/interrupt_handler.S:63-74 | from exception to resumption, the machine makes the abstract step Interrupt |
| ByteOrder.SwapIsReverse32 | kernel/network/network_io.c:31-38 | swapping a value is reversing its bytes |
| ByteOrder.NtohlOfField | kernel/network/network_io.c:55-62 | in either processor order, ntohl of a field is the number its wire bytes spell |
| ByteOrder.FieldOfHtonl | kernel/network/network_io.c:31-38 | in either order, storing htonl of a value puts its bytes on the wire most significant first |
| ByteOrder.TurnedAround32 | kernel/network/network_io.c:31-38 | htonl turns the bytes of a value around on a little-endian processor and leaves them alone on the other |
| ByteOrder.TurnedAround16 | kernel/network/network_io.c:43-50 | the same for 16 bits |
| ByteOrder.RoundTrips32 | kernel/network/network_io.c:31-62 | htonl and ntohl undo each other |
| ByteOrder.RoundTrips16 | kernel/network/network_io.c:43-74 | htons and ntohs undo each other |
| ByteOrder.ConvertMac | kernel/network/network_io.c:79-109 | the loop reverses the address, or keeps it on a big-endian machine |
| ByteOrder.MacAddressEqual | kernel/network/ethernet.c:81-90 | true iff all six bytes agree |
| ArpTable.Routing.Find | kernel/network/routing.c:39-70 | every slot after the scan, and the last hit as result, with a clock that may tick |
| ArpTable.Routing.Lookup | kernel/network/routing.c:76-87 | the mac of the hit or the null mac |
| ArpTable.Routing.AddEntry | kernel/network/routing.c:135-162 | exactly one slot is overwritten: the first free one, else the first of the oldest |
| ArpTable.Routing.Update | kernel/network/routing.c:168-188 | the hit gets the new mac, and the result says whether there was one |
| ArpCache.Bounded | kernel/network/routing.c:205-206 | the map the table stands for has at most ten bindings |
| ArpCache.FindKeepsWellFormed | kernel/network/routing.c:45-68 | the table stays in order iff the address is nonzero or every free slot is stamped with time zero |
| ArpCache.FindRefinesCache | kernel/network/routing.c:39-70 | bindings unused for more than 300 s go, the others stay as they are, a hit is refreshed, and the search succeeds iff the binding stays: all this iff the address is nonzero or no slot is free |
| ArpCache.LookupRefinesCache | kernel/network/routing.c:76-87 | the mac returned is that of the binding, or null if there is none, and the table stays in order: iff no free slot is stamped |
| ArpCache.UpdateRefinesCache | kernel/network/routing.c:168-188 | the exact condition for the table to stay in order; then the mac of an existing binding is replaced and nothing else |
| ArpCache.AddRefinesCache | kernel/network/routing.c:135-162 | a binding is inserted, and others stay unless all ten slots are taken, when a least recently used one goes: iff the address is nonzero and the clock does not show zero |
| Arp.BuiltBytes | kernel/network/arp.c:37-54 | the bytes of a built frame are the layout of RFC 826, the same in either processor order |
| Arp.ReplyBytes | kernel/network/arp.c:60-72 | the target fields of a reply are the very sender bytes of the request |
| Arp.RequestBytes | kernel/network/arp.c:132-142 | the destination, the type and all 28 bytes of a request: broadcast, from us, for the address asked for |
| Arp.RequestAnswered | kernel/network/arp.c:79-127 | of all hosts that receive a request, the one with the address sends one reply to the mac that asked, and the others send nothing |
| Arp.ReplyLearned | kernel/network/arp.c:113-127 | the asker that receives this reply has the mac of the host bound to the address, unless the clock shows zero |
| Arp.ReceiveFollowsRfc826 | kernel/network/arp.c:79-127 | arp_receive keeps the table in order and does what "Packet Reception" of RFC 826 says, for a cache that ages and is bounded: iff the frame is unsupported, or has a sender address and is not to be learned while the clock shows zero, or has none, is for others, and stamps no free slot |
| Arp.ReceiveKeepsWellFormed | kernel/network/arp.c:79-127 | the exact condition for the table alone |
| Arp.ProbeStampsFreeSlots | kernel/network/arp.c:113-116 | an address probe for another host puts an empty table out of order |
| Arp.FirstSecondForgets | kernel/network/arp.c:118-122 | the reply to a host's first request, in the first second, is written into a slot that still counts as free |
| Arp.FirstBytesMatter | kernel/network/arp.c:83-127 | nothing depends on the payload past its first 28 bytes |
| Arp.ArpNode.Receive | kernel/network/arp.c:79-127 | table and frames sent, in every branch |
| Arp.ArpNode.GetMac | kernel/network/routing.c:93-107 | a lookup, and a request exactly when it finds nothing |
| Arp.ArpNode.SendRequest | kernel/network/arp.c:132-142 | one broadcast request goes out |
| ArpWire.ReplyCarried | kernel/network/arp.c:66-71 | the sixty bytes that answer a request: an Ethernet frame to the sender, the reply of RFC 826 in it, and zeros |
| ArpWire.RequestCarried | kernel/network/arp.c:135-141 | the sixty bytes of a request |
| ArpWire.HandleRequest | kernel/network/arp.c:60-72 | these bytes are what the card transmits, through allocation, copying, padding, transmission and freeing |
| ArpWire.SendRequest | kernel/network/arp.c:132-142 | the same for a request |
| ArpNetwork.ReceiveKeepsTruth | kernel/network/arp.c:79-127 | a host with a true table that receives an honest frame keeps a true table and sends honest frames |
| ArpNetwork.EveryBindingTrue | kernel/network/arp.c:79-142 | in every run of any number of hosts, with frames lost, duplicated, delayed and reordered, each entry with a nonzero address has the mac of the host that owns the address |
| ArpNetwork.EverySendReachesOwner | kernel/network/ipv4.c:38-58 | in every run, the IPv4 frames sent are exactly one for each successful ipv4_send, with its data, to the mac of the true owner |
| Ipv4.DestinationTrue | kernel/network/ipv4.c:42-46 | in every run of the network, the mac a host goes on with is that of the owner of the address |
| Ipv4.Ipv4Layer.ReceiveOne | kernel/network/arp.c:79-127 | receiving a frame that is on the wire is exactly one move of the network, a delivery of this payload |
| Ipv4.Ipv4Layer.AskMac | kernel/network/routing.c:93-107 | so is arp_table_get_mac, called by ipv4_send; its answer is that of the lookup |
| Ipv4.Ipv4Layer.TestDeadline | kernel/network/ipv4.c:47-53 | so is the test of the deadline, which is late exactly after more than five seconds |
| Ipv4.Ipv4Layer.Ipv4Send | kernel/network/ipv4.c:38-58 | with other hosts moving and frames arriving between any two statements: result 0 means exactly one frame, to the mac of the host that has the address, any other none; a first lookup that finds a mac means result 0; it gives up only after more than five seconds, at the first test after them; it still waits only after exactly the turns allowed, with lookups that all found nothing |
| PciMmio.StoredAcross | kernel/pci/pci_mmio.c:103-128 | words that keep the bytes around the value amount to a byte store of the value across the word boundary, and nothing else |
| PciMmio.StoredInWord | kernel/pci/pci_mmio.c:63-72 | a word with the value put in at an offset amounts to a byte store of the value |
| PciMmio.StoredBoth | kernel/pci/pci_mmio.c:88-99 | two adjacent byte stores are one |
| PciMmio.ValueOfBytes | kernel/pci/pci_mmio.c:56-60 | the four bytes of a value spell it least significant first |
| PciMmio.ValueOfBytes2 | kernel/pci/pci_mmio.c:74-100 | the same for two bytes |
| PciMmio.ValueOfBytes8 | kernel/pci/pci_mmio.c:130-162 | the same for eight bytes |
| PciMmio.PciBus.WriteWord | kernel/pci/pci_mmio.c:56-60 | requires a multiple of four and stores the four little-endian bytes |
| PciMmio.PciBus.PciWrite8 | kernel/pci/pci_mmio.c:62-72 | at every address, exactly the one byte changes |
| PciMmio.PciBus.PciWrite16 | kernel/pci/pci_mmio.c:74-100 | at every address, exactly two bytes change, to the little-endian value |
| PciMmio.PciBus.PciWrite32 | kernel/pci/pci_mmio.c:102-128 | the same for four bytes |
| PciMmio.PciBus.PciWrite64 | kernel/pci/pci_mmio.c:130-162 | the same for eight bytes, across up to three words |
| Printf.NumberRoundTrip | libc/stdio/vprintf.c:80-284 | reading the text of a number back gives the number, in base 10 and 16 and either case |
| Printf.NoLeadingZero | libc/stdio/vprintf.c:80-284 | only zero starts with a zero |
| Printf.DigitCount | libc/stdio/vprintf.c:83 | a number below the n-th power of the base has at most n digits, so the index stays in the buffer |
| Printf.BufferSizes | libc/stdio/vprintf.c:83-111 | ten digits are enough for 32 bits and twenty for 64, in both bases |
| Printf.LetterI | libc/stdio/vprintf.c:80-107 | `%i`: what is printed, read in base ten, is the signed argument |
| Printf.LetterSmallL | libc/stdio/vprintf.c:108-128 | `%l`: read in base ten, the unsigned 64-bit argument |
| Printf.LetterCapitalL | libc/stdio/vprintf.c:129-156 | `%L`: read in base ten, the signed 64-bit argument |
| Printf.LetterSmallX | libc/stdio/vprintf.c:157-185 | `%x`: read in base sixteen with small letters, the unsigned argument |
| Printf.LetterCapitalX | libc/stdio/vprintf.c:186-221 | `%X`: read in base sixteen with capital letters, the signed argument |
| Printf.LetterSmallY | libc/stdio/vprintf.c:222-250 | `%y`: as `%x`, with 64 bits |
| Printf.LetterCapitalY | libc/stdio/vprintf.c:251-286 | `%Y`: as `%X`, with 64 bits |
| Printf.LetterC | libc/stdio/vprintf.c:50-57 | `%c` prints its argument; -1 ends the output |
| Printf.LetterS | libc/stdio/vprintf.c:58-79 | `%s` prints the string, or "(null)" |
| Printf.PercentSign | libc/stdio/vprintf.c:45-49 | `%%` prints a percent sign, and the rest follows |
| Printf.ConversionThenRest | libc/stdio/vprintf.c:38-302 | a conversion prints what it prints by itself, and the rest follows with the arguments left |
| Printf.UnknownLetter | libc/stdio/vprintf.c:288-291 | any other letter, and a percent sign at the end, ends the output with a complaint |
| Printf.LinesEnd | libc/stdio/putchar.c:36-48 | on the UART a newline follows a carriage return, and without these the bytes are the characters |
| Printf.CountIsLength | libc/stdio/vprintf.c:31-305 | for supported formats the value returned is the number of characters printed |
| Printf.TextRendersAsItself | libc/stdio/vprintf.c:295-301 | text without conversions is printed as it stands, before whatever follows |
| Printf.NestedComplaint | libc/stdio/vprintf.c:288-291 | what the nested printf prints for an unknown conversion character |
| Printf.Console.ExtractDigits | libc/stdio/vprintf.c:80-107 | the digit loop leaves the digits in the buffer, least significant first, and never leaves the buffer |
| Printf.Console.PrintNumber | libc/stdio/vprintf.c:80-107 | sign and digits as printed are the text of the number |
| Printf.Console.Vprintf | libc/stdio/vprintf.c:31-305 | for every format with matching arguments, what is printed is the recursive rendering, and the result its count |

## Left out

- GPIO, LEDs, motors, sensors, buttons, ADC, SPI, pin tables, demos, timer set-up: register pokes without state worth an invariant.
- PCI enumeration, board configuration, EEPROM detection, link start and the allocation of the receive buffers: straight-line set-up.
- System call entry and exit, vector table, stacks and boot code; add_task is one atomic step.
- Logging, clock and table printing.
- Effects of the compiler on shared variables that are not volatile, and concurrent use of the allocator or of the ARP table by several tasks.
- The allocator's callers are trusted to free live blocks only; double frees and foreign pointers are outside the model, and so is what a history goes on to do after a request answered with a pointer past the break.
- Receive descriptors name buffers by index, and DMA moves one byte at a time; the card's other registers and its handling of frames over 8192 bytes are not modelled.
- Parsing of IPv4 and the dispatch on the Ethernet type: the task's use of a packet is reading its bytes.
- Ethernet.EthernetSend: requires that malloc succeeds; the code does not check the result. The descriptor ring is kept apart from the byte memory, and the card's own limit on the length of a buffer is not modelled.
- Transmit.TxCard.SendPacket: the card may idle for a finite number of polls, given as a parameter; a card that never reports is not modelled.
- The memory of the tasks, their stacks included: isolation is about registers. The interrupt stack is one frame deep, since interrupts come in user mode only.
- ContextSwitch.Machine.StartScheduler: what happens after the load through a null pointer is not modelled.
- ContextSwitch.Machine.HandleInterrupt: the packet handler and the clock handler appear only through the registers they may clobber.
- ArpCache.AddRefinesCache: for an address not in the table, as arp_receive calls it; a second entry for the same address is outside the model.
- Arp.ArpNode.Receive: takes the packet's slot from the payload on, at least 28 bytes, because the code does not look at a frame's length; what of it the frame filled, and what is left of an older one, is not told apart.
- Arp.ArpNode.EthernetSend stands for `ethernet_send` and records what it was given; ArpWire says what the card then carries, and a host in ArpNetwork may receive any payload that begins with a frame sent.
- Ipv4.Ipv4Layer.Ipv4Send: runs up to a given number of turns of the waiting loop, because nothing in the code ends it if neither a reply comes nor the clock advances; after a turn that ends past the deadline it has returned.
- PCI reads at unaligned addresses: their result depends on the processor.
- Printf.Console.Vprintf: the most negative values for `%i`, `%X`, `%L` and `%Y` are excluded, because negating them is undefined in C; so are arguments of the wrong type. The calls that vprintf makes to printf are printed directly, and NestedNullString and NestedComplaint show that this is what they print.
