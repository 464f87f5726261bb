# Verified model of the hypervisor's memory, scheduling and messaging core

This project models an EL2 hypervisor for AArch64 in Dafny and proves what its main mechanisms
promise. `dafny verify dfyconfig.toml` checks everything.

**Stage-2 tables and memory sharing.** `BitWord` and `PteBits` are the 64-bit descriptors;
`Descriptor` and `PageTable` the four-level table as a value, with the tree shape that every
operation keeps; `TableEdits` the effect of single writes; `Allocator` the page allocator with its
in-page free list; `Walker` and `Mapper` the two editors of the tables; `VmMemory` the memory of a
VM at boot; `BreakBeforeMake` the split against a TLB. `ShareProtocol` is the FF-A v1.1 sharing
protocol (DEN0077A) as a transition system over the translations of the VMs and the share records;
`ShareInvariant` and `ShareRoundTrip` prove it over all runs; `Proxy` proves that the handlers, on
the real tables, make its steps, and `ProxyRun` puts both together; `ShareReplies` says when each call
goes through and that a share can always be ended. The main results are stated as
"if and only if" where the code does less than its documentation says:

- a share is recorded only up to four ranges and only if a record is free, after its pages have changed;
- a reclaim restores the pages in the caller's tables, not the sender's;
- a share ignores failed splits, so it takes full effect exactly when the heap can pay for them;
- an unbind of notifications stops at the first binding that it meets;
- the interrupt flush believes the reported number of List Registers, of which it can reach four.

Each of these has a member that exhibits the failing case: `ShareInvariant.ManyRangesLost`,
`ShareInvariant.ReclaimByReceiver`, `ProxyRun.UnpaidShare`, `Notifications.UnbindMisses` and
`Interrupts.FlushLoses`.

**Scheduling and interrupts.** `Scheduling` gives the scheduler iteration as functions and bounds the
wait of a ready vCPU; `Interrupts` covers pending words and List Registers (Arm IHI 0069) and
`GicBits` gives the registers as 64-bit words; `VmRun` puts scheduling and interrupts into runs and
follows an interrupt from the pending word into the guest; `VmLoop` proves the scheduler object and
the run loop against them.

**Concurrency and the network path.** `Ring` and `TicketLock` are step systems with arbitrary
interleaving; `Virtqueue`, `Net`, `VSwitch` and `NetPath` follow a frame from one guest's transmit
chain into another's receive buffers (Virtio 1.2); `SwitchRun` decides by the traffic so far where a
frame goes.

**Secure partitions and endpoints.** `Spmc`, `Notifications` and `MemRegion`.

`Modular`, `Sizes` and `ByteBuffer` hold arithmetic of wrapping indices, sizes and byte buffers.

What the environment decides is a parameter: the exits of guests and partitions, arriving
interrupts and requests, the addresses read from the device tree. Page tables are addressed by page
number; a descriptor word is the record of its bit fields, which `PteBits` relates to the word.
Integers are unbounded except where 16-, 32- or 64-bit wrap-around is written out. The header of the
memory region descriptor has 44 bytes, as the packed structure does, although its comment says 48.
Share handles and record counts start as at boot; VM 0 and VM 1 use different root tables, and the
tables in use are those of the calling VM.

## Model

| member | source | states |
|---|---|---|
| PteBits.SwWord | src/ffa/stage2_walker.rs:58-67 | on 64-bit words, the mask-and-shift of `write_sw_bits` changes the ownership field to the number's low two bits and no other field |
| PteBits.S2apWord | src/ffa/stage2_walker.rs:82-92 | likewise for the access permission |
| PteBits.AddrOfWord | src/arch/aarch64/defs.rs:92-96 | masking with `PTE_ADDR_MASK` gives 4096 times the page number of the fields |
| PteBits.TableWord | src/arch/aarch64/mm/mmu.rs:49-52 | a page address with the valid and table bits has exactly the fields of a table descriptor |
| PteBits.BlockWordIs | src/arch/aarch64/mm/mmu.rs:416-423 | the word of `make_block_entry` has the fields of the block descriptor, for all three attributes and every 64-bit address |
| PteBits.PageWordIs | src/ffa/stage2_walker.rs:235-242 | the word that `map_page` writes has the fields of the page descriptor for every 64-bit address; bits above 47 end up in the attributes and the ownership |
| PteBits.PageWordMeant | src/ffa/stage2_walker.rs:235-242 | that word has the meant fields if and only if no address bit above 47 spills into it |
| PteBits.SplitWords | src/ffa/stage2_walker.rs:356-383 | the walker's and the mapper's split write the same word for each of the 512 pages, with the block's fields and the page's own low address bits |
| Allocator.BumpInsideHeap | src/mm/allocator.rs:54-65 | on 64-bit registers a granted region lies inside the heap if and only if neither addition wraps |
| Allocator.BumpAllocator.constructor | src/mm/allocator.rs:13-20 | an empty allocator satisfies the invariant: outstanding regions disjoint, aligned pages in the heap, acyclic free list disjoint from them, `allocated` equal to the outstanding bytes |
| Allocator.BumpAllocator.AllocAligned | src/mm/allocator.rs:54-65 | for any size and power-of-two alignment on 64-bit registers: the exact result; if no addition wraps the invariant is kept, it fails exactly when the aligned region does not fit, and otherwise the region is aligned and new |
| Allocator.BumpAllocator.PopFree | src/mm/allocator.rs:25-36 | pops the in-memory list: the page leaves the list, becomes outstanding and is zeroed; the rest of the list is intact |
| Allocator.BumpAllocator.AllocPage | src/mm/allocator.rs:23-40 | succeeds exactly while a page is left; the page overlaps no outstanding region and no other memory changes |
| Allocator.BumpAllocator.FreePage | src/mm/allocator.rs:46-52 | an outstanding page goes to the head of the list, its first word links to the old head, and it is no longer outstanding |
| PageTable.WalkPlaces | src/ffa/stage2_walker.rs:104-159 | in a well-shaped tree a walk meets only the tables whose place is given by the leading address bits |
| PageTable.WalkFrame | src/ffa/stage2_walker.rs:104-159 | writing one slot changes a walk only if the slot covers the page |
| TableEdits.LeafWrite | src/ffa/stage2_walker.rs:167-249 | writing an L3 slot keeps the tree shape and changes the translation of exactly one page of one root |
| TableEdits.LinkEmpty | src/ffa/stage2_walker.rs:167-249 | linking a fresh zeroed table keeps the tree shape and every translation |
| TableEdits.SplitPreservesMeaning | src/arch/aarch64/mm/mmu.rs:501-539 | the 512 page descriptors mean what the block meant, at every page, if and only if the block is 2MB aligned |
| TableEdits.SplitKeepsViews | src/ffa/stage2_walker.rs:356-395 | replacing a block by its 512 pages keeps the shape, every translation of every root, and removes exactly that block |
| TableEdits.BlockWrite | src/arch/aarch64/mm/mmu.rs:354-377 | writing a block descriptor keeps the shape and maps exactly the 512 pages of the block, in one root |
| Walker.Tables.ReadSwBits | src/ffa/stage2_walker.rs:47-52 | the ownership of a mapped page, nothing for an unmapped one |
| Walker.Tables.SplitBlock | src/ffa/stage2_walker.rs:356-395 | succeeds exactly if a heap page is left; no translation of any root changes; one block less |
| Walker.Tables.InstallSplit | src/ffa/stage2_walker.rs:370-395 | the stores and flushes of a split go through exactly the memories of the break-before-make sequence, in its order; the translations are kept |
| Walker.Tables.SplitIfNeeded | src/ffa/stage2_walker.rs:320-347 | splits the block of a page if there is one; fails exactly if it needs a heap page and there is none |
| Walker.Tables.WriteSwBits | src/ffa/stage2_walker.rs:58-67 | changes the ownership of exactly one page of one root and nothing else in any translation; the exact success condition; the exact heap cost |
| Walker.Tables.SetS2ap | src/ffa/stage2_walker.rs:82-92 | likewise for the access permission |
| Walker.Tables.LinkNewTable | src/ffa/stage2_walker.rs:182-192 | allocates, zeroes and links a table into an invalid slot; no translation changes |
| Walker.Tables.L3TableFor | src/ffa/stage2_walker.rs:167-233 | finds or creates the L3 table of a page; succeeds exactly if there is no block in the way and the heap covers the missing tables, which are then the exact cost |
| Walker.Tables.MapPage | src/ffa/stage2_walker.rs:167-249 | for every address: succeeds exactly if the page is unmapped, the L1 table exists and the heap covers the missing tables; then exactly that page is mapped to itself at the exact cost; on failure no translation changes anywhere |
| Walker.BelowLimit | src/ffa/stage2_walker.rs:235-242 | for addresses below 2^48 the new leaf has exactly the ownership, permission and attributes asked for |
| Walker.Tables.UnmapPage | src/ffa/stage2_walker.rs:258-272 | unmaps exactly one page; succeeds exactly if it is mapped by a 4KB descriptor |
| Mapper.DynamicIdentityMapper.constructor | src/arch/aarch64/mm/mmu.rs:333-348 | a new root that translates nothing, apart from all other roots |
| Mapper.DynamicIdentityMapper.GetOrCreateL2 | src/arch/aarch64/mm/mmu.rs:380-413 | succeeds exactly if the slot is in use or fewer than four are and a heap page is left; no translation changes |
| Mapper.DynamicIdentityMapper.MapRegion | src/arch/aarch64/mm/mmu.rs:354-377 | for every region: succeeds exactly if the L2 tables needed are at most four in all and the heap affords the new ones; then exactly the slots of the region's 2MB blocks are written, a later block replacing an earlier one of the same slot; on failure a prefix of them is |
| Mapper.IdentityExactly | src/arch/aarch64/mm/mmu.rs:354-377 | a region of 64-bit addresses is mapped to itself, and nothing else is, if and only if it lies below 512GB |
| Mapper.DynamicIdentityMapper.Split2mbBlock | src/arch/aarch64/mm/mmu.rs:501-539 | the mapper's split keeps all translations and costs one page |
| Mapper.DynamicIdentityMapper.Unmap4kbPage | src/arch/aarch64/mm/mmu.rs:470-496 | for every address: exactly one page is no longer translated; the exact success condition and heap cost |
| VmMemory.MapGuest | src/vm.rs:199-260 | the guest range without the heap is mapped, in one or two stretches |
| VmMemory.InitMemoryDynamic | src/vm.rs:199-336 | no step fails; a page is mapped (to itself, read-write, owned) if and only if it is in the guest range minus the heap or in the interrupt controller region, and not in the distributor or a redistributor frame; the interrupt controller is device memory; other roots keep their translations; an upper bound on the heap used |
| BreakBeforeMake.SplitIsSafe | src/ffa/stage2_walker.rs:356-408 | in every interleaving of the split with a TLB that may cache any valid leaf and drop any entry, no 2MB and 4KB entry for one address are cached together, and every cached entry translates as before the split |
| BreakBeforeMake.FlushIsNeeded | src/ffa/stage2_walker.rs:385-394 | without the flush between break and make, every split has a run that ends with such a conflict |
| ShareProtocol.FindFrom | src/ffa/stub_spmc.rs:156-173 | finds an active record with a handle and none earlier, or there is none |
| ShareProtocol.FirstFree | src/ffa/stub_spmc.rs:87-127 | finds an inactive record and none earlier, or all are active |
| ShareInvariant.ShareKeepsExactly | src/ffa/proxy.rs:588-613 | an accepted share keeps pages and records in step if and only if its pages are recorded: at most four ranges count, and a record must be free |
| ShareInvariant.ManyRangesLost | src/ffa/stub_spmc.rs:87-127 | from boot, sharing any number of pages above four one by one is accepted and loses the invariant |
| ShareInvariant.ReclaimKeepsExactly | src/ffa/proxy.rs:686-706 | a reclaim keeps pages and records in step if and only if the caller is the sender or the record has no pages |
| ShareInvariant.ReclaimByReceiver | src/ffa/proxy.rs:686-706 | from boot, a share followed by a reclaim by the receiver is accepted and loses the invariant |
| ShareInvariant.FourRangesFit | src/ffa/stub_spmc.rs:87-127 | at most four ranges and a free record are enough for a share to be recorded |
| ShareInvariant.StepKeeps | src/ffa/proxy.rs:513-847 | every disciplined call keeps the invariant |
| ShareInvariant.RunKeeps | src/ffa/proxy.rs:513-847 | in every run a page is SharedOwned exactly if an active record of its VM covers it, and then readable if it was shared, not if it was lent, and never writable, by the bits of its permission field; SharedBorrowed exactly if a retrieved record addressed to the VM covers it, and then mapped to itself, readable and writable; owned pages are readable and writable, and records of one sender are disjoint |
| ShareInvariant.BootKeeps | src/ffa/stub_spmc.rs:56-80 | owned, read-write translations without records satisfy the invariant |
| ShareRoundTrip.StandsInRun | src/ffa/proxy.rs:513-847 | through any calls on any handles, until its own reclaim, a share changes its pages only in ownership and permission; the other VM keeps those that it mapped before, never as borrowed, and maps others only while it holds them |
| ShareRoundTrip.RoundTrip | src/ffa/proxy.rs:554-597 | share or lend, then any interleaved calls of both VMs, then the reclaim: the sender translates the pages exactly as before, and the other VM maps exactly those that it mapped before, to the same place, never as borrowed, and equal if it owns them at both times |
| ShareRoundTrip.NeverRetrieved | src/ffa/proxy.rs:745-779 | if the other VM maps one of the pages when they are shared, every retrieve of the handle is denied until the reclaim |
| ShareRoundTrip.OwnedByOne | src/ffa/proxy.rs:554-597 | a page that one VM owns is not borrowed by the other |
| ShareReplies.InPages | src/ffa/proxy.rs:554-581 | the pages of a request are exactly the `count` pages from the base of each range |
| ShareReplies.ApartIsDistinct | src/ffa/proxy.rs:745-779 | the page list of a record has no page twice if and only if no two ranges share a page |
| ShareReplies.ShareReply | src/ffa/proxy.rs:513-619 | the whole reply of a share, by receiver, sender field, ownership of every page and a free record, and the record that it leaves |
| ShareReplies.ReclaimReply | src/ffa/proxy.rs:668-709 | a reclaim goes through for every record that is not retrieved, whatever its ranges; the other replies |
| ShareReplies.RetrieveReply | src/ffa/proxy.rs:718-788 | a retrieve goes through exactly for the addressee of a record that is not retrieved, with ranges apart and unmapped and tables that fit; the other replies |
| ShareReplies.RelinquishReply | src/ffa/proxy.rs:796-847 | a relinquish goes through exactly for the addressee of a retrieved record; the other replies |
| ShareReplies.DealEnds | src/ffa/proxy.rs:668-847 | from any state in which a share stands, the receiver's relinquish, if it holds the pages, and then the sender's reclaim go through and both VMs translate the pages as before |
| ShareReplies.ShareEnds | src/ffa/proxy.rs:513-847 | so after any share or lend of at most four ranges and any calls of both VMs short of its reclaim |
| Proxy.FfaProxy.LookupShare | src/ffa/stub_spmc.rs:156-173 | the first active record with the handle |
| Proxy.FfaProxy.RecordShare | src/ffa/stub_spmc.rs:87-127 | always takes a handle; fills the first free record with at most four ranges |
| Proxy.FfaProxy.MarkRetrieved | src/ffa/stub_spmc.rs:175-197 | sets the flag of the first record with the handle whose flag differs, and nothing else; false if there is none |
| Proxy.FfaProxy.FreeShare | src/ffa/stub_spmc.rs:199-208 | deactivates the first record with the handle and nothing else; false if there is none |
| Proxy.FfaProxy.ValidateOwned | src/ffa/proxy.rs:561-581 | true exactly if every page of every range is mapped and owned |
| Proxy.FfaProxy.SetRanges | src/ffa/proxy.rs:583-597 | changes ownership and permission of exactly the mapped pages whose block could be split; a heap page per split block, and none is left unsplit unless the heap is empty |
| Proxy.PaidEnough | src/ffa/proxy.rs:583-597 | all blocks of the pages get split if and only if the heap had a page for each of them |
| Proxy.FfaProxy.MapRanges | src/ffa/proxy.rs:745-779 | maps every page or, after the rollback, the translation is as it was, for any range list and any tables; succeeds if and only if the pages are distinct and unmapped, their L1 tables are there, and the heap has a page for each gigabyte without L2 table and each 2MB without L3 table |
| Proxy.BuiltShort | src/ffa/proxy.rs:745-779 | if the heap gives out at some page, it was too small for the whole list from the start, whatever tables were built on the way |
| Proxy.FfaProxy.Rollback | src/ffa/proxy.rs:759-772 | unmaps exactly the pages mapped before the failure |
| Proxy.FfaProxy.MemShareOrLend | src/ffa/proxy.rs:513-619 | the handler on page tables and records makes exactly the step of the protocol if and only if the heap can pay for the splits, whose failure it ignores; in any case the reply and the records are the protocol's, exactly the pages outside blocks that could not be split change, and each of these is readable if shared, not if lent, and not writable |
| Proxy.FfaProxy.MemReclaim | src/ffa/proxy.rs:668-709 | the handler makes exactly the protocol's reclaim step, whatever the heap |
| Proxy.FfaProxy.MemRetrieveReq | src/ffa/proxy.rs:718-788 | the handler makes exactly the protocol's retrieve step: all pages mapped and the record marked, or both VMs' translations and all records unchanged; the former if and only if the pages are distinct and unmapped and the heap covers the missing tables |
| Proxy.FfaProxy.MemRelinquish | src/ffa/proxy.rs:796-847 | the handler makes exactly the protocol's relinquish step, in every state that the handlers reach |
| ProxyRun.Start | src/vm.rs:199-336 | two VMs with owned, read-write translations and no shares satisfy the invariant |
| ProxyRun.Boot | src/vm.rs:199-336 | two VMs booted one after the other on one heap have the boot translations, and the invariant holds |
| ProxyRun.Serve | src/ffa/proxy.rs:87-150 | each trapped memory call, on the concrete tables and in any state the handlers reach, is one step of the protocol if and only if the heap can pay for the splits of an accepted share; a disciplined such call keeps the invariant |
| ProxyRun.UnpaidShare | src/ffa/proxy.rs:583-613 | on a heap of five pages, used up by the tables of two VMs, a share of a page in a 2MB block is answered with a handle, the page stays owned, and the invariant is lost |
| VmLoop.Scheduler.PickNext | src/scheduler.rs:59-78 | the running vCPU if there is one, else the ready vCPU nearest to the scan position, else none if none is ready |
| VmLoop.Scheduler.YieldCurrent | src/scheduler.rs:81-87 | the current vCPU is ready again and the scan continues behind it |
| VmLoop.Scheduler.BlockCurrent | src/scheduler.rs:90-96 | the current vCPU is blocked and the scan continues behind it |
| VmLoop.Scheduler.RemoveVcpu | src/scheduler.rs:46-53 | the vCPU leaves the queue; the scan position stays |
| VmLoop.Scheduler.Unblock | src/scheduler.rs:99-103 | only a blocked vCPU becomes ready |
| VmLoop.Vm.BootSecondary | src/vm.rs:633-656 | CPU_ON fills a slot that was never filled, and no other |
| VmLoop.Vm.RunOneIteration | src/vm.rs:501-602 | refines the abstract iteration, with wake-ups computed from the pending words: no `unwrap` fails, nothing runs before or after, only the vCPU that ran may lose pending bits, those it had are in its registers at guest entry or pending while none is free, and the VM is done exactly if nothing was ready and no vCPU is online |
| VmLoop.Vm.RunVcpu | src/vm.rs:539-563 | draining devices, injecting both words and all traps of the guest leave every bit of every other vCPU pending, and every interrupt raised for another vCPU is pending there |
| VmLoop.Vm.HandleTrap | src/arch/aarch64/hypervisor/exception.rs:826-868 | each trap of the running vCPU with its exact effect on the pending words |
| VmLoop.Vm.RunSmp | src/vm.rs:605-627 | every run of the loop is a run of turns in the sense of `VmRun.IsVmRun`, one for each stimulus; it stops early only if no vCPU is online |
| Scheduling.IterationKeeps | src/vm.rs:501-602 | exactly the dispatched vCPU runs while the guest runs, and it exists; none runs between iterations |
| Scheduling.RunKeeps | src/vm.rs:616-627 | at most one vCPU is Running in every state of every run |
| Scheduling.RemovedStays | src/vm.rs:505-516 | a vCPU that is removed is never scheduled or booted again |
| Scheduling.ExitEffect | src/vm.rs:571-598 | a vCPU that powers off is removed, after WFI it is blocked, after any other exit ready; the scan moves behind it unless it powered off |
| Scheduling.NextIsFirst | src/scheduler.rs:59-78 | the vCPU picked is the first ready slot of the circular scan from the scan position |
| VmRun.PoweredOff | src/vm.rs:571-598 | in every run, a vCPU that powered off never runs again |
| VmRun.SleepsUntilWoken | src/vm.rs:571-598 | in every run, a vCPU that executed WFI runs again only once it has a pending interrupt or nothing was ready |
| VmRun.RunsAgain | src/vm.rs:571-598 | after any other exit a vCPU is ready and runs again after at most one turn of each vCPU ahead of it |
| VmRun.IdleWakes | src/vm.rs:524-536 | if nothing is ready, exactly the blocked vCPUs that are online become ready |
| VmRun.CpuOnRuns | src/vm.rs:505-516 | CPU_ON for an empty slot: the vCPU is there and online, and runs after at most one turn of each vCPU ahead of it |
| Scheduling.WaitStep | src/vm.rs:865-877 | while a ready vCPU waits, it stays ready and each iteration runs a vCPU ahead of it, after which that one is no longer ahead and no other has become so |
| Scheduling.RunsWithin | src/vm.rs:501-602 | a vCPU that is ready, or made ready by an interrupt or CPU_ON, runs after at most one turn of each vCPU ahead of it, and not before |
| VmRun.StaysPending | src/vm.rs:501-602 | no pending bit of a vCPU goes away until the vCPU runs, in any run |
| VmRun.WakeToRun | src/vm.rs:501-602 | in every run, a scheduled vCPU with a pending interrupt runs after at most one turn of each vCPU ahead of it, hence within eight iterations, whatever other vCPUs boot, block or power off; it enters the guest with each such interrupt in a List Register, or still pending while none is free |
| VmRun.SentArrives | src/vm.rs:501-602 | an interrupt that is pending for a scheduled vCPU when a turn ends, such as an SGI sent in that turn, reaches it in the same way |
| Interrupts.VirtualCpu.InjectInterrupt | src/arch/aarch64/peripherals/gicv3.rs:380-402 | takes a free List Register if there is one and makes exactly this interrupt pending in it: state, group, priority and INTID fields; reports success without effect exactly if none is free and more than four are reported |
| Interrupts.VirtualCpu.Deliver | src/vm.rs:886-919 | the bits taken are those placed in free registers plus those put back; occupied registers are untouched; as many are placed as registers are free; lower interrupts first; bits raised meanwhile by other pCPUs stay pending |
| Interrupts.VirtualCpu.InjectPendingSgis | src/vm.rs:886-919 | the above for SGIs and the four saved registers |
| Interrupts.VirtualCpu.InjectPendingSpis | src/vm.rs:924-954 | the above for SPIs |
| Interrupts.VirtualCpu.FlushPendingSpis | src/arch/aarch64/hypervisor/exception.rs:1370-1395 | the hardware flush, with bits raised meanwhile by other pCPUs: what it takes is delivered or put back if and only if at most four registers are reported or all bits found a free one |
| Interrupts.FlushLoses | src/arch/aarch64/hypervisor/exception.rs:1370-1395 | with five registers reported and all four occupied, any pending SPI is gone after the flush |
| Interrupts.VirtualCpu.InjectPending | src/vm.rs:559-561 | before guest entry: every interrupt of both words is in a register, or still pending while no register is free |
| Interrupts.VmGlobalState.InjectSpi | src/global.rs:411-433 | an SPI from 32 to 63 sets exactly its bit for its target, others nothing |
| Interrupts.VmGlobalState.HandleSgiTrap | src/arch/aarch64/hypervisor/exception.rs:826-868 | every target but the sender gets exactly the SGI's bit; an SGI to itself reaches a register exactly if one is free |
| Interrupts.PendingExactly | src/vm.rs:886-954 | in every run of raises, injections and arbitrary guest register changes, a bit is pending if and only if it was raised and has not been delivered since |
| Interrupts.DeliveredWasPending | src/vm.rs:886-954 | only a pending bit is delivered, into a register that was free, and it is then no longer pending |
| GicBits.GettersRead | src/arch/aarch64/peripherals/gicv3.rs:502-518 | the getters read state, INTID and priority off any 64-bit register |
| GicBits.ReadsBack | src/arch/aarch64/peripherals/gicv3.rs:494-518 | state 1, the INTID and the priority are read back from the word of `build_lr`, for every 32-bit INTID and 8-bit priority |
| GicBits.WrittenWord | src/vm.rs:904-907 | the register that a delivery writes is that word with priority 0xA0 |
| GicBits.SgiReaches | src/arch/aarch64/hypervisor/exception.rs:826-868 | from the register value that a guest builds for an INTID and a set of targets, or for all others, the trap handler finds exactly these |
| Ring.NoRace | src/vswitch.rs:68-104 | the producer never writes the slot that the consumer reads, at any step |
| Ring.StoreKeeps | src/vswitch.rs:68-86 | each producer step keeps the invariant and acts on the abstract queue as an enqueue, a refusal of a full queue, or not at all |
| Ring.TakeKeeps | src/vswitch.rs:89-104 | each consumer step likewise as a dequeue of the oldest item, a refusal of an empty queue, or not at all |
| Ring.FirstInFirstOut | src/global.rs:478-500 | in every interleaving, with slot contents torn during the copy and index loads that may lag, the items taken followed by those in the ring are exactly the items accepted, in order, and the ring holds at most its size minus one |
| TicketLock.EntersFirst | src/sync.rs:27-33 | with at most 2^32 tickets out, only the longest waiting thread can enter |
| TicketLock.MutualExclusion | src/sync.rs:27-55 | in every run with at most 2^32 tickets out, two threads in the critical section are the same thread |
| TicketLock.FirstComeFirstServed | src/sync.rs:27-55 | a thread that took its ticket later does not enter before an earlier one has left |
| TicketLock.FirstCanEnter | src/sync.rs:27-33 | the longest waiting thread is in or can enter: the lock is never stuck |
| TicketLock.TooMany | src/sync.rs:49-55 | with more than 2^32 tickets out, a second thread can enter |
| TicketLock.OverflowBreaks | src/sync.rs:27-55 | a run of 2^32 + 1 threads that ends with two of them inside |
| Virtqueue.SlotsDiffer | src/devices/virtio/queue.rs:136-149 | entries that can be in a ring together never share a slot, wherever the 16-bit index wraps, if and only if the ring size divides 2^16 |
| Virtqueue.Virtqueue.GetAvailDesc | src/devices/virtio/queue.rs:123-186 | every posted chain is taken exactly once and in order, across index wrap-around; the chain has at most four descriptors |
| Virtqueue.Virtqueue.WalkChain | src/devices/virtio/queue.rs:168-183 | the chain ends after four descriptors, outside the table, or without a successor |
| Virtqueue.ChainLinks | src/devices/virtio/queue.rs:168-183 | the chain starts at the head, each descriptor is followed by its successor in the table, and it ends only at four, without a successor, or at one outside the table |
| Virtqueue.Virtqueue.PutUsed | src/devices/virtio/queue.rs:189-213 | the last `num` chains given back can be read off the used ring, across wrap-around |
| Net.GatheredExactly | src/devices/virtio/net.rs:46-92 | the gathered frame is everything after the 12-byte header, over any number of descriptors, if and only if that is at most 1514 bytes |
| Net.GatherFrame | src/devices/virtio/net.rs:50-87 | the loop computes the gathered frame |
| Net.Capacity | src/devices/virtio/mmio.rs:342-349 | the total length of the writable descriptors |
| Net.WritableExactly | src/devices/virtio/mmio.rs:342-398 | the receive buffers are exactly the device-writable descriptors, in the order of the chain |
| Net.Header | src/devices/virtio/mmio.rs:338-340 | the header is zero but for `num_buffers`, which reads as the little-endian number 1 |
| Net.ScatterOne | src/devices/virtio/mmio.rs:362-398 | one descriptor receives exactly the next bytes of header and frame, wherever the boundary between them falls |
| Net.Scatter | src/devices/virtio/mmio.rs:338-401 | writes nothing if the capacity is too small; otherwise the writable buffers read in order start with header and frame if they do not overlap; bytes outside them never change |
| VSwitch.LearnAt | src/vswitch.rs:216-236 | after an address was learned, exactly its lookup has changed |
| VSwitch.FullTable | src/vswitch.rs:216-236 | the entry count is below the table size exactly if an entry is free |
| VSwitch.NetRxRing.Store | src/vswitch.rs:68-86 | accepts exactly frames of 1 to 1514 bytes while fewer than eight wait, at the end of the queue |
| VSwitch.NetRxRing.Take | src/vswitch.rs:89-104 | takes the oldest frame |
| VSwitch.Switch.LookupPort | src/vswitch.rs:239-246 | the port of the first valid entry for the address |
| VSwitch.Switch.Learn | src/vswitch.rs:216-236 | the address is learned if it was known or an entry is free; no other lookup changes |
| VSwitch.Switch.Flood | src/vswitch.rs:248-254 | the frame is offered to every port but its source |
| VSwitch.Switch.Forward | src/vswitch.rs:186-214 | learns the source, then offers the frame to the known port of the destination or to all others, never to the port it came from; shorter than 14 bytes changes nothing |
| SwitchRun.LearnsTraffic | src/vswitch.rs:186-236 | in every run in which at most sixteen addresses have sent, the table knows for each address the port from which it sent last |
| SwitchRun.ForwardsByTraffic | src/vswitch.rs:186-254 | a frame then reaches a port if and only if it came from another one and is a multicast or its destination sent last from that port or never; at most 1514 bytes, with fewer than eight waiting |
| NetPath.TransmitOne | src/devices/virtio/net.rs:46-97 | one chain: the gathered frame reaches the switch if it has an Ethernet header, and the chain is given back |
| NetPath.ProcessTx | src/devices/virtio/net.rs:46-97 | every available chain is taken, its gathered frame forwarded and the chain given back with length 0, in order: the switch goes through exactly the steps of those frames |
| NetPath.InjectRx | src/devices/virtio/mmio.rs:326-403 | the exact success condition; on success header and frame are in the buffers and the used length is 12 plus the frame length; a chain whose head is outside the table is taken but never given back |
| NetPath.DrainNetRx | src/vm.rs:961-970 | the waiting frames go to the next receive chains, one each and in order, until either runs out; afterwards the ring is empty and every frame that found room is behind its header in its own chain, if the chains do not overlap; the used ring says so |
| NetPath.LandedStep | src/devices/virtio/mmio.rs:326-403 | a frame written to one chain leaves those in other chains intact |
| NetPath.Transfer | src/devices/virtio/net.rs:46-97 | end to end: for a payload of 14 to 1514 bytes in any transmit chain, behind any frames that wait already, and disjoint receive chains of which the frame's own has room, the receiver's buffers hold the header and exactly the bytes sent, and the used length is 12 more than the frame's |
| Spmc.SpmcHandler.TransitionTo | src/sp_context.rs:95-113 | performs exactly the seven allowed transitions and refuses all others |
| Spmc.SpmcHandler.GetSp | src/sp_context.rs:180-192 | the first registered partition with the identifier |
| Spmc.SpmcHandler.RegisterSp | src/sp_context.rs:166-177 | fills the first free slot and no other; partitions at rest stay so |
| Spmc.SpmcHandler.Enter | src/spmc_handler.rs:106-157 | no `expect` fails; the partition starts with the registers it has and ends preempted or idle with those it left |
| Spmc.SpmcHandler.DispatchRequest | src/spmc_handler.rs:69-221 | refines the abstract step; no partition runs between requests; the partition entered and its start registers are those of the specification |
| Spmc.MessageExactly | src/spmc_handler.rs:94-157 | a message enters an idle partition with exactly its arguments in x0 to x7 and the other registers as they were, and is refused as busy otherwise; what the partition leaves is the response, or an interrupt is reported |
| Spmc.RunExactly | src/spmc_handler.rs:161-221 | FFA_RUN enters a preempted partition with the saved registers, and is denied otherwise |
| Spmc.OwesOneAnswer | src/spmc_handler.rs:69-221 | in every run, accepted messages minus answers is one exactly for a preempted partition, else zero, and no partition is Running between requests |
| Spmc.SavedStays | src/spmc_handler.rs:161-221 | no request but its own FFA_RUN touches a preempted partition |
| Spmc.ResumesAsSaved | src/spmc_handler.rs:161-221 | a preempted partition is resumed with exactly the registers with which it was preempted, whatever happened in between |
| Notifications.EffectKeeps | src/ffa/notifications.rs:93-194 | every call keeps active bindings nonempty and disjoint, and a disabled endpoint free of bindings and pending bits |
| Notifications.OneSender | src/ffa/notifications.rs:117-144 | a bit of a receiver has at most one bound sender |
| Notifications.UnbindExactly | src/ffa/notifications.rs:147-161 | a successful unbind clears all named bits if and only if they belong to a single binding of the sender |
| Notifications.UnbindMisses | src/ffa/notifications.rs:147-161 | after two binds of one sender, unbinding both bits succeeds and leaves the second bound |
| Notifications.NotificationState.BitmapCreate | src/ffa/notifications.rs:93-100 | enables a disabled endpoint |
| Notifications.NotificationState.BitmapDestroy | src/ffa/notifications.rs:103-114 | clears everything of an enabled endpoint |
| Notifications.NotificationState.BindSender | src/ffa/notifications.rs:117-144 | binds exactly if no active binding shares a bit and a slot is free; each error case |
| Notifications.NotificationState.UnbindSender | src/ffa/notifications.rs:147-161 | changes the first binding of the sender that meets the bits |
| Notifications.NotificationState.SetBits | src/ffa/notifications.rs:164-183 | sets bits exactly if all of them are bound to the sender |
| Notifications.NotificationState.GetBits | src/ffa/notifications.rs:186-194 | returns and clears the pending bits |
| Notifications.PendingExactly | src/ffa/notifications.rs:164-194 | in every run a bit is pending if and only if it was set and not fetched or destroyed since |
| Notifications.GetsWhatWasSet | src/ffa/notifications.rs:186-194 | each GET returns exactly the bits set since the previous GET or the creation |
| Notifications.EndpointsApart | src/ffa/notifications.rs:75-85 | exactly VMs 1 to 4 and two secure partitions have an endpoint, each its own |
| Notifications.RepliesExactly | src/ffa/notifications.rs:93-194 | each reply, by the bits that senders may set |
| Notifications.AllowedExactly | src/ffa/notifications.rs:117-183 | in every run a sender may set a bit if and only if the bit was bound to it and has not been unbound or destroyed since |
| Notifications.EnabledExactly | src/ffa/notifications.rs:93-114 | in every run an endpoint is enabled if and only if it was created and not destroyed since |
| Notifications.SetExactly | src/ffa/notifications.rs:164-183 | in every run a SET goes through if and only if the endpoint is created and each of its bits is so bound to the sender; otherwise it is denied |
| Notifications.PendingWasBound | src/ffa/notifications.rs:164-183 | every pending bit was set by a sender to which it was bound at the time |
| MemRegion.ParseMemRegion | src/ffa/descriptors.rs:116-199 | for arbitrary bytes: every read stays below `total_length`; accepts exactly the descriptors whose parts lie within bounds with aligned ranges; the result says what the bytes say, with 1 to 16 ranges |
| MemRegion.ParseRanges | src/ffa/descriptors.rs:170-197 | the range loop, with its exact acceptance condition |
| MemRegion.BuildTestDescriptor | src/ffa/descriptors.rs:208-247 | every field is written where the parser looks for it, also for ranges beyond the zeroed 128 bytes |
| MemRegion.RoundTrip | src/ffa/descriptors.rs:116-247 | parsing what was built gives back exactly the sender, receiver, ranges and page total, for 1 to 16 aligned ranges |
| MemRegion.UnalignedRefused | src/ffa/descriptors.rs:187-190 | a built descriptor with an unaligned range is refused |
| MemRegion.PageSumAdds | src/ffa/descriptors.rs:208-247 | the page total of a descriptor is the sum over its ranges |
| ByteBuffer.LeRoundTrip | src/ffa/descriptors.rs:135-140 | little-endian encoding and decoding of a number that fits |
| ByteBuffer.LeDigit | src/ffa/descriptors.rs:135-140 | byte i of a number is its digit of weight 256^i |

## Left out

- VmMemory.InitMemoryDynamic: demands 2MB-aligned guest ranges below 512GB and interrupt controller frames inside the controller's region, as the platform has them.
- Ring: memory ordering is modelled by index loads that may lag but never run backwards, not by a full weak-memory semantics.
- The choice between the register form and the descriptor form of a share request: a share starts from its parsed ranges, and the parser is `MemRegion`.
- The mailbox, FFA_VERSION, ID_GET, FEATURES, PSCI queries and direct messages of the proxy: each settled by one branch.
- Forwarding to EL3 and the relay paths of the TF-A boot configuration: calls into foreign code.
- Inline assembly, system registers, timers, boot code, device tree and manifest parsing: hardware or external libraries.
- The static identity mapper, 1GB blocks and `map_4kb_page`: used only by tests, never created, or a variant of what is modelled.
- UART, block device, GIC shadow registers and MMIO decoding: register files and short bit extraction.
- The multi-pCPU run loop and physical wake-up interrupts: no scheduler state of their own. Within an iteration of the single-pCPU loop only the traps of the vCPU that runs and drained devices raise bits.
- Isolation between the address ranges of the two VMs: the platform constants make them overlap.
- Termination of a VM after all vCPUs power off: the online mask is not cleared, so the run loop goes on.
- `used_addr == 0` and other half-configured virtqueues: a queue here is set up or not ready.
