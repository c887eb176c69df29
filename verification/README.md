# A verified model of the Hantro codec driver's queues and allocators

This project models the parts of the Hantro Linux driver that keep mutable data structures consistent
with what the hardware reads, and proves what they promise for every input and every run.

* **The VCMD engine** (`hantro/hantro_vcmd.c`). Clients reserve one of 256 slots and submit the command
  buffer in it. The driver keeps the buffers of a core on a list and, at the same time, threads a chain
  through memory by rewriting the JMP words at the end of each buffer; the hardware follows the chain.
  `JmpWords` works on the bits of those words. `VcmdSpec` holds one core as a value and every entry point
  as a function on it, loop by loop. `VcmdEngine`, `CmdbufPool` and `VcmdDevice` are the same operations
  in place: objects, arrays and loops, each method proved to compute its function.
  `VcmdChain`, `VcmdRecovery`, `VcmdQueue`, `VcmdSafety`, `VcmdMembership`, `VcmdPower`, `VcmdRuns`,
  `VcmdWaiting`, `VcmdPacing`, `VcmdRemoval`, `VcmdPriority` and `VcmdExact` hold the theorems;
  `VcmdMemory` and `VcmdMirror` repeat the engine word by word on one memory that all buffers share.
  `SelectCore` is the choice between several cores.
* **The MMU** (`hantro/hantro_mmu.c`): first-fit allocation in (mtlb, stlb) page numbers with splitting
  and two-sided joining, the page-table words, and the two-level walk. `MmuSpec`, `MmuRegions`,
  `MmuMapping`, `MmuRuns`, `MmuWidths` (regions whose page count is not their width) and `MmuSpace`
  (several regions over one table) are values and theorems, `MmuDriver` the operations in place.
* **The smaller algorithms**: the FPGA chunk allocator (`ChunkAllocator`), the reservation of several
  encoder cores (`EncoderCores`), and the intrusive list everything in VCMD rests on (`BiList`).

## What the main results say

In every run of submissions, interrupts, releases, suspends and resumes of a core, the done flags are a
prefix of the list, and on a working core the walk of the hardware from the first undone buffer visits
exactly the undone buffers in list order and stops at the tail (`VcmdRuns.EveryRunIsSafe`,
`VcmdRuns.ChainIsList`). This is so in memory, where clients write whatever they like into their own slots
and each JMP is four words at an address (`VcmdMirror.MemoryWalkIsTheQueue`), and from the finished buffer
at which the hardware waits when it has run out of work (`VcmdWaiting.WaitingLeadsOn`). Error interrupts hand back exactly the unfinished work
(`VcmdPower.RecoveryIsExact`), no more than the pacing limit goes by between two interrupts
(`VcmdPacing.InterruptsArePaced`), and unexecuted buffers stay in priority order if and only if none of
two events happens (`VcmdPriority.PriorityOrder`). Every byte of a mapped buffer translates to its own
page whatever else is mapped and unmapped, in its own region or another (`MmuMapping.TranslationIsCorrect`,
`MmuSpace.BuffersAreIsolated`), and the free and mapped nodes always partition the pages their region
claims (`MmuWidths.EveryClaimIsPartitioned`). Cores reserved by interleaved clients are accounted for
exactly if and only if no client releases a core that another holds
(`EncoderCores.EveryInterleavingIsExact`).

## Where the code does not do what one might expect

Each of these is proved, with the exact condition under which the code does meet the expectation.

* An error interrupt that names a buffer finished earlier than the last finished one restarts the
  hardware on finished work and counts one buffer too many, one that names nothing queued leaves the core
  idle with its buffers linked, and one with an id out of range is ignored: `VcmdPower.RecoveryIsExact` (if
  and only if), `VcmdExact.StaleReportRestartsFinishedWork` (an instance).
* `release_cmdbuf` does not test that a buffer is done. The bookkeeping survives if and only if it is, or
  the core is idle and the buffer is not the tail: `VcmdExact.ReleaseIsExact`.
* `link_and_run_cmdbuf` stores the size a client passes without comparing it with the slot, and counts back
  from it to the JMP and, on newer hardware, to the command into which it fills the address of the register
  dump. It writes only into the buffer's own slot, and never over a JMP it has tested, if and only if the
  size is at most 8192 and at least 16, on newer hardware 28 (`VcmdMemory.OwnSlot`). A buffer of 16384 bytes
  shares its JMP words with the buffer in the next slot, and linking it makes that buffer jump to itself
  (`VcmdMemory.OversizeJumpsToItself`); the search by address then finds the wrong buffer
  (`VcmdMemory.OversizeHidesItsNeighbour`). On newer hardware the register dump of a buffer of 16 to 27
  bytes hits the JMP of a full buffer in the slot before it (`VcmdMemory.ShortDumpHitsPredecessor`): for 16
  bytes that buffer then jumps to the register dump (`VcmdMemory.ShortDumpRedirectsPredecessor`), and for 20
  to 27 the buffer's own opcode word is overwritten (`VcmdMemory.DumpHitsOpcode`). In one of 28 to 39 bytes
  the second address is put over words of the first (`VcmdMemory.DumpsAreExact`).
* On older hardware an error at an address inside a finished buffer finds nothing and leaves the core idle
  with its work linked (`VcmdPower.FinishedAddressIsLost`); the search for the least busy core does find the
  finished buffer, and counts its time (`SelectCore.RemainingIsNeeded`).
* A submission is turned down while the executing-id word reads zero, as it does before anything has been
  dumped into it: `VcmdMembership.RejectionIsExact`.
* Only the opcode of the closing JMP is tested. The hardware stops at the tail after a submission if and
  only if the JMP was closed or something stands behind the buffer: `VcmdExact.ClosedJmpIsExact`.
* The pacing accumulator has 32 bits and can wrap. Linking keeps every stretch without an interrupt below
  the limit if and only if no charge on the way wraps: `VcmdPacing.LinkIsExact`, `VcmdPacing.ChargeIsExact`,
  `VcmdPacing.PacingCanWrap` (an instance).
* Taking an interrupting buffer out of a chain joins the quiet stretches around it, and the interrupt that
  the removal helper means to force is never forced while pacing holds: `VcmdRemoval.RemovalPaced` (if and
  only if), `VcmdRemoval.RemovalDoublesTheStretch` (an instance).
* A high-priority buffer goes to the tail, behind normal ones, whenever the executed count and the ready
  count agree, and neither has to mean that the queue is executed. The order survives if and only if
  everything still to be executed is high as well: `VcmdPriority.TailOrdered`. On an idle core with work left
  the ready count is zero, so an executed count of zero reads as having caught up; this is how a core stands
  after an abort or a suspend, and on hardware up to 1.0.c even after a resume
  (`VcmdPriority.StoppedCoreOvertakes`, an instance). On a working core it happens exactly where the executed
  count stands for the whole queue while a normal buffer is still to be executed
  (`VcmdPriority.WorkingIsOvertaken`): newer hardware reads the count from a word in memory that no restart
  clears, so after an error the word can be ahead (`VcmdPriority.RestartedCoreOvertakes`, an instance). While
  the count is not ahead of the hardware it cannot happen on a working core
  (`VcmdPriority.WorkingIsNeverOvertaken`).
* A reset runs again what the driver had not seen finished. A high-priority buffer that was queued behind
  such buffers then waits for normal ones: `VcmdPriority.ResetOrdered`.
* On hardware up to 1.0.c a resume does nothing, so a suspend loses the work that was left:
  `VcmdPower.SuspendThenResume`. On any hardware a resume does nothing once the aborted buffer has been
  released: `VcmdPower.ResumeIsExact`.
* The interrupt handler looks ids up among all live buffers, the model in the queue. They agree if and
  only if the id is not that of a buffer reserved but not queued: `VcmdDevice.Device.TableLookupIsExact`.
* Appending a node that is already on the list leaves pointers that spell out no list:
  `BiList.List.AppendTwice`.
* A reservation that is turned down after its time was charged leaves the charge behind:
  `VcmdDevice.Device.Reserve`. Giving back a buffer that was never submitted subtracts its time twice:
  `VcmdDevice.Device.ReleaseNotLinked`.
* None of the shipped MMU regions counts exactly the pages it is wide: IN counts two fewer, OUT, PRIVATE
  and PUB one more (`MmuWidths.ShippedCounts`). Free and mapped nodes partition the claimed pages in every
  run if and only if the count is at most one more than the width (`MmuWidths.PartitionIsExact`); from two
  more on a free node can be joined with itself and deleted. So all four partition and translate
  (`MmuWidths.ShippedRegionsTranslate`). Mapped buffers stay inside their region in every run if and only if
  the count is at most the width (`MmuWidths.EscapesIffOverclaimed`), so only IN keeps to itself
  (`MmuWidths.ShippedRegionsEscape`). Some run in one region changes what a buffer of another translates to
  if and only if the pages they claim overlap (`MmuSpace.DisturbanceIsExact`): OUT and PRIVATE, and PRIVATE
  and PUB (`MmuSpace.ShippedRegionsDisturb`).
* The page table carries bits 12 to 39 of an address: `MmuSpec.EntryIsExact`.
* A request for zero bytes of FPGA memory is given an address that is given away again:
  `ChunkAllocator.ZeroBytesAreGivenAwayAgain`.
* An interrupted wait for encoder cores never gives back what it had collected:
  `EncoderCores.InterruptedCoresAreLost`.
* The release call for encoder cores tests no owner. A mask released out of turn does no harm if and only
  if it spares every core that is held (`EncoderCores.MaskIsExact`); otherwise two clients can hold one
  core (`EncoderCores.SecondReleaseSharesTheCore`). A mask with a bit behind the last core and none at the
  end makes the release follow a null pointer (`EncoderCores.Encoders.ReleaseEncoder`).
* A core mask that names no core leaves the selected core unset: `SelectCore.ChosenIsSupported`.

## What is assumed of the surroundings

* Selecting a place, inserting a buffer and linking it are one step. The driver takes its spinlock twice;
  an interrupt in between that relinks the queue would let the link count a buffer twice.
* The hardware reports a buffer of this core's queue: the last finished one or a linked one still to be
  executed, and for a timeout the latter (`VcmdQueue.Credible`). `VcmdPower.RecoveryIsExact` shows that
  this is needed.
* A submitted buffer has a size from 16, on newer hardware 28, to 8192 bytes (`VcmdSpec.SizeFits`), ends in a
  JMP with RDY clear, is submitted once, and is released when it is finished. `VcmdMemory.OwnSlot`,
  `VcmdExact.ClosedJmpIsExact`, `BiList.List.AppendTwice` and `VcmdExact.ReleaseIsExact` show what each of
  these is needed for. Under the first of them no two buffers have a word in common that the driver writes
  (`VcmdMemory.WordsArePrivate`), which is why a buffer is modelled with words of its own;
  `VcmdMirror.MemoryWalkIsTheQueue` proves that nothing is lost by it. Slots lie below 2^64.
* Priority order assumes that an error or abort report names the buffer being executed or the last one
  executed, and that a JMP interrupt names an executed one (`VcmdPriority.Honest`). Nothing is assumed of the
  executed count. Pacing over whole runs assumes times up to 2^32 - 35389440.
* The MMU hardware reads a second-level table's address from bits 31 to 6 of a first-level entry, and a
  page address from bits 31 to 12 and, for its bits 39 to 32, bits 11 to 4 of a second-level entry.
* One core serves the buffers of a queue; `SelectCore` adds the choice between cores for normal priority.
* A command buffer is represented by its JMP and, on newer hardware, the addresses of the two register
  dumps; `EXECUTING_CMDBUF_ID_ADDR`, which one of them depends on, is defined in a header that is not part of
  this model, so both addresses are parameters.
* For isolation across regions, the regions over one page table claim disjoint pages (`MmuSpace.SpaceInv`);
  `MmuSpace.DisturbanceIsExact` shows that this is needed.

## Model

| member | source | states |
|---|---|---|
| JmpWords.LinkDecodes | hantro/hantro_vcmd.c:1337-1366 | linking sets RDY, length, address and (newer hardware) id, and keeps opcode, IE and spare bits of every 32-bit word |
| JmpWords.LengthCovers | hantro/hantro_vcmd.c:511-511 | eight times the length covers the size in bytes with less than one unit to spare |
| JmpWords.LinkLeadsTo | hantro/hantro_vcmd.c:1337-1366 | a linked JMP is ready, leads to the target's address and, on newer hardware only, its id, and its length covers the target |
| JmpWords.LinkInstance | include/hantro_vcmd.h:119-125 | one JMP word linked to 60 bytes and closed again, bit for bit |
| JmpWords.SetIeDecodes | hantro/hantro_vcmd.c:1320-1327 | asking for an interrupt sets the IE bit and nothing else |
| JmpWords.EncodersAgree | hantro/hantro_vcmd.c:3338-3396 | the JMP encoding of the removal helper equals the one inlined in linking bit for bit, plus IE when forced |
| JmpWords.CutDecodes | hantro/hantro_vcmd.c:3354-3359 | without a successor RDY and length are cleared and everything else is kept |
| VcmdChain.LinkFromLinked | hantro/hantro_vcmd.c:1282-1411 | linking from a linked node links everything behind it, each JMP naming its successor, and counts exactly the newly linked buffers in 32 bits |
| VcmdChain.LinkFromUnlinked | hantro/hantro_vcmd.c:1282-1335 | the same when the first node itself is unlinked, which is then counted too |
| VcmdChain.LinkLoopCounts | hantro/hantro_vcmd.c:1328-1411 | for any queue the ready count rises by the number of undone buffers passed, modulo 2^32 |
| VcmdChain.RelinkedKeeps | hantro/hantro_vcmd.c:1337-1366 | a relinked queue is a chain from the first undone buffer to a tail that stops |
| VcmdChain.UnlinkPattern | hantro/hantro_vcmd.c:1420-1438 | delinking stops at the first unlinked buffer and still leaves exactly the done ones linked |
| VcmdChain.MarkBackMarks | hantro/hantro_vcmd.c:2494-2507 | the backward loop may stop at the first done buffer: everything up to the report is done and nothing else changes |
| VcmdChain.LastLinkedAt | hantro/hantro_vcmd.c:1677-1697 | the backward search finds the end of the linked prefix |
| VcmdChain.QueueIsShort | include/hantro_vcmd.h:69-70 | a queue of distinct nonzero ids has at most 255 buffers |
| VcmdRecovery.DelinkAt | hantro/hantro_vcmd.c:1420-1438 | delinking from the first undone buffer keeps order, membership, done flags and the chain |
| VcmdRecovery.RestartAt | hantro/hantro_vcmd.c:2102-2107 | relinking and starting hands over exactly the unfinished work with the start registers at its first buffer |
| VcmdRecovery.ErrorRecovers | hantro/hantro_vcmd.c:2190-2473 | bus error, timeout, command error and end command: ready count is the number of undone buffers, working iff nonzero, started at the first, same membership, only the faulting buffer gets an error status |
| VcmdRecovery.ResetRecovers | hantro/hantro_vcmd.c:2086-2110 | reset restarts every undone buffer, in any state, and touches no status |
| VcmdRecovery.AbortStops | hantro/hantro_vcmd.c:2111-2188 | an abort the driver asked for leaves the core idle with the rest unlinked; one it did not ask for restarts an encoder |
| VcmdQueue.LinkInserted | hantro/hantro_vcmd.c:1820-1822 | linking from the last linked buffer takes in the inserted one and everything behind it |
| VcmdQueue.LinkAndRunWorking | hantro/hantro_vcmd.c:1835-1847 | a running core gets one more ready buffer at the end of its chain and the register is updated |
| VcmdQueue.LinkAndRunIdle | hantro/hantro_vcmd.c:1820-1834 | an idle core is started at the first undone buffer with all undone buffers linked |
| VcmdQueue.JmpKeeps | hantro/hantro_vcmd.c:2474-2509 | a JMP interrupt marks up to the reported buffer and changes nothing else |
| VcmdQueue.ErrorProgress | hantro/hantro_vcmd.c:2111-2473 | where an error or abort leaves the done and linked prefixes |
| VcmdQueue.IsrKeeps | hantro/hantro_vcmd.c:1986-2519 | every credible interrupt keeps the invariant and the queue's membership and order, and no buffer becomes undone |
| VcmdMembership.IsrKeepsMembers | hantro/hantro_vcmd.c:1986-2519 | no interrupt, whatever it reports and in whatever state, changes which buffers are queued, their order, or anything but their progress |
| VcmdMembership.SubmitAddsOne | hantro/hantro_vcmd.c:1699-1850 | in every state an accepted submission adds the one buffer in one place and a rejected one nothing |
| VcmdMembership.RejectionIsExact | hantro/hantro_vcmd.c:1733-1758 | in every state a submission is turned down, with nothing changed, iff its last command is no JMP, or the hardware is newer, unfinished work reaches to the tail, ready and executed count differ and the executing id is 0 or at least 256 |
| VcmdMembership.PlaceIsExact | hantro/hantro_vcmd.c:952-1277 | an accepted buffer goes to the tail for normal priority or when all is finished or caught up, otherwise, after the abort, before the first normal buffer that is not done |
| VcmdMembership.ResumeKeepsMembers | hantro/hantro_vcmd.c:4247-4275 | resume changes only progress, in every state |
| VcmdSafety.SubmitQueues | hantro/hantro_vcmd.c:1699-1850 | an accepted buffer is in the queue at its place, on a running core with everything linked |
| VcmdSafety.SubmitKeeps | hantro/hantro_vcmd.c:1699-1850 | submission keeps the invariant; a rejected buffer changes nothing |
| VcmdSafety.SweepKeeps | hantro/hantro_vcmd.c:1626-1652 | the backward release loop removes exactly the need-remove buffers below its start |
| VcmdSafety.ReleaseRemoves | hantro/hantro_vcmd.c:1624-1653 | release leaves the old queue minus the need-remove buffers at or before the released one, and the tail always stays |
| VcmdSafety.ReleaseKeeps | hantro/hantro_vcmd.c:1588-1656 | releasing a done buffer keeps the invariant, and the queue never becomes empty |
| VcmdPower.ResumeRestarts | hantro/hantro_vcmd.c:4247-4275 | resuming hands every undone buffer to the hardware again, in order |
| VcmdPower.ResumeKeeps | hantro/hantro_vcmd.c:4247-4275 | resume keeps the invariant and the queue in every state |
| VcmdPower.ResumeIsExact | hantro/hantro_vcmd.c:4247-4275 | resuming an idle core hands back exactly the unfinished work iff the aborted buffer is still queued or nothing was left |
| VcmdPower.SuspendStops | hantro/hantro_vcmd.c:4211-4237 | suspending a working core finishes up to the aborted buffer, stops the core and loses nothing |
| VcmdPower.SuspendThenResume | hantro/hantro_vcmd.c:4211-4275 | suspend then resume repeats and loses nothing iff the hardware is newer than 1.0.c or nothing was left |
| VcmdPower.StaleRestartCounts | hantro/hantro_vcmd.c:1297-1411 | restarting from a finished buffer makes the ready count one too many |
| VcmdPower.RecoveryIsExact | hantro/hantro_vcmd.c:2046-2473 | an error interrupt of a working core hands back exactly the unfinished work iff newer hardware reports the id of the last finished buffer or a later one (timeout: a later one), older hardware an address in an unfinished one; or the report names nothing while nothing was left and the counter is zero, or has an id out of range while the core stood as freshly started |
| VcmdPower.FinishedAddressIsLost | hantro/hantro_vcmd.c:2203-2229 | on older hardware an address in a finished buffer leaves the core idle and list, statuses and counter as they were |
| VcmdRuns.ChainIsList | hantro/hantro_vcmd.c:1337-1366 | a sequence is a walk of the hardware along the JMP words from the first undone buffer iff it is the undone buffers in list order |
| VcmdRuns.RemovalRejoins | hantro/hantro_vcmd.c:3417-3448 | after removing any buffer of a linked chain the hardware walks exactly the other undone ones |
| VcmdRuns.StepKeeps | hantro/hantro_vcmd.c:1699-2519 | each of submit, interrupt, release, suspend and resume keeps the invariant |
| VcmdRuns.EveryRunIsSafe | hantro/hantro_vcmd.c:1699-2519 | in every run from boot: done and linked are prefixes, the counter is linked undone plus completed since the start, register and counter agree, the hardware's walk is the list, and every queued buffer fits its slot |
| VcmdWaiting.StepLeadsOn | hantro/hantro_vcmd.c:1677-1850 | in every step the JMP words lead from the buffer finished last since the start, while it is queued, to the first undone one |
| VcmdWaiting.WaitingLeadsOn | hantro/hantro_vcmd.c:1337-1366 | in every run from boot the finished buffer the hardware waits at, while it is queued, stands before the first undone one, and the walk from it is the undone buffers in list order |
| VcmdMemory.OwnSlot | hantro/hantro_vcmd.c:1725-1817 | the driver writes only into the buffer's slot and never over the JMP it tested, and the address range stays in the slot, iff the size is at most 8192 and at least 16, on newer hardware 28 |
| VcmdMemory.DumpHitsOpcode | hantro/hantro_vcmd.c:1796-1817 | the register-dump address is put over the opcode word of the buffer's own JMP iff the size is 20 to 27 |
| VcmdMemory.WordsArePrivate | hantro/hantro_vcmd.c:1337-1366 | in a queue of fitting buffers no word that the driver writes, JMP or register dump, belongs to two |
| VcmdMemory.WritesTouchOneBuffer | hantro/hantro_vcmd.c:1337-1366 | writing JMP or register-dump words of one queued buffer leaves the JMP of every other as it was |
| VcmdMemory.DumpsKeepTheChain | hantro/hantro_vcmd.c:1777-1817 | filling in the register dumps changes no JMP in the queue, the buffer's own included |
| VcmdMemory.DumpsAreExact | hantro/hantro_vcmd.c:1777-1817 | both register-dump addresses can be read back where they were put, whatever they are, iff the buffer has at least 40 bytes |
| VcmdMemory.LinkWritesJumps | hantro/hantro_vcmd.c:1282-1411 | linking writes JMP words of queued buffers and no other word |
| VcmdMemory.LinkShows | hantro/hantro_vcmd.c:1282-1411 | linking word by word in one memory shows there exactly what linking does to the queue |
| VcmdMemory.ShortDumpHitsPredecessor | hantro/hantro_vcmd.c:1796-1817 | on newer hardware the register dump of a buffer of 16 to 27 bytes hits the JMP of a full buffer in the slot before |
| VcmdMemory.ShortDumpRedirectsPredecessor | hantro/hantro_vcmd.c:1796-1817 | for 16 bytes that buffer then jumps to the register dump, its opcode and RDY unchanged |
| VcmdMemory.OversizeJumpsToItself | hantro/hantro_vcmd.c:1725-1734 | a buffer of two slots' size shares the next slot's JMP words, and linking it makes the next buffer jump to itself |
| VcmdMemory.OversizeHidesItsNeighbour | hantro/hantro_vcmd.c:2203-2229 | the search by address then finds the oversize buffer instead of its neighbour |
| VcmdMirror.IsrShows | hantro/hantro_vcmd.c:1986-2519 | any interrupt, with any report, leaves memory and queue in agreement |
| VcmdMirror.SubmitShows | hantro/hantro_vcmd.c:1699-1850 | so does a submission: the client's writes, the register dumps and the linking |
| VcmdMirror.SubmitPlacesDumps | hantro/hantro_vcmd.c:1777-1822 | on newer hardware a queued and linked buffer of at least 40 bytes holds the two register-dump addresses of its core |
| VcmdMirror.MemoryWalkIsTheQueue | hantro/hantro_vcmd.c:1699-2519 | in every run from boot over one memory, with clients writing into their own slots, the hardware's walk through memory is the undone buffers in list order |
| VcmdMirror.EveryJumpCovers | hantro/hantro_vcmd.c:1337-1366 | in every run each JMP still to be taken, read from memory, leads to the next buffer's address and its length covers that buffer |
| VcmdMirror.StartCovers | hantro/hantro_vcmd.c:487-520 | the start registers lead to the first buffer and their length covers it |
| VcmdPacing.ChargePaces | hantro/hantro_vcmd.c:1299-1327 | taking a buffer in keeps the accumulator below the limit or makes the buffer interrupt |
| VcmdPacing.SubmittedCharge | hantro/hantro_vcmd.c:1741-1748 | a submitted buffer that interrupts already is never charged; any other is added, and interrupts iff the 32-bit sum reaches 35389440 |
| VcmdPacing.ChargeIsExact | hantro/hantro_vcmd.c:1312-1327 | the pacing bound survives a buffer iff the 32-bit addition does not wrap |
| VcmdPacing.LinkIsExact | hantro/hantro_vcmd.c:1282-1411 | linking keeps every quiet stretch below the limit iff no charge on the way wraps the 32-bit accumulator over a buffer that does not interrupt yet |
| VcmdPacing.ForcedOnlyWhenDue | hantro/hantro_vcmd.c:1282-1335 | relinking counts from zero and makes a buffer interrupt only when the charges of it and those before it reach the limit |
| VcmdPacing.PacingCanWrap | hantro/hantro_vcmd.c:1312-1327 | a wrapped accumulator lets more than the limit go by |
| VcmdPacing.LinkPaced | hantro/hantro_vcmd.c:1282-1411 | linking keeps every quiet stretch below the limit and the accumulator above the trailing one |
| VcmdPacing.InterruptsArePaced | include/hantro_vcmd.h:72-73 | in every run, any stretch of linked undone buffers without IE has less work than the limit |
| VcmdRemoval.RemovalPaced | hantro/hantro_vcmd.c:3417-3448 | removal from a linked chain keeps pacing iff the quiet work around the buffer stays below the limit and, where it reaches the tail, within the accumulator |
| VcmdRemoval.QuietOrDoneMayGo | hantro/hantro_vcmd.c:3417-3448 | removing a quiet or finished buffer always keeps pacing |
| VcmdRemoval.RemovalKeepsPace | hantro/hantro_vcmd.c:3433-3446 | in a paced state the helper never forces an interrupt, so every IE bit stays |
| VcmdRemoval.RemovalForces | hantro/hantro_vcmd.c:3433-3446 | the buffer in front of the removed one is made to interrupt iff the accumulator is beyond the limit |
| VcmdRemoval.RemovalDoublesTheStretch | hantro/hantro_vcmd.c:3417-3448 | removing the interrupting one of three buffers of twenty million lets forty million go by |
| VcmdPriority.TailOrdered | hantro/hantro_vcmd.c:952-991 | a high-priority buffer queued at the tail keeps the order iff every unexecuted buffer is high |
| VcmdPriority.WorkingIsOvertaken | hantro/hantro_vcmd.c:952-991 | on a working core a high-priority buffer is queued behind an unexecuted normal one iff there is one while the executed count stands for the whole queue |
| VcmdPriority.WorkingIsNeverOvertaken | hantro/hantro_vcmd.c:952-991 | so never while the executed count is not ahead of the hardware |
| VcmdPriority.StoppedCoreOvertakes | hantro/hantro_vcmd.c:952-991 | a stopped core with a normal buffer left and an executed count of zero lets a high-priority buffer be queued behind it |
| VcmdPriority.RestartedCoreOvertakes | hantro/hantro_vcmd.c:952-991 | a core restarted by a bus error, with an executed count left from earlier work, lets a high-priority buffer be queued behind two normal ones |
| VcmdPriority.ResetOrdered | hantro/hantro_vcmd.c:2086-2110 | after a reset priority order holds iff no high-priority buffer stands behind a normal one that was executed but not yet done |
| VcmdPriority.EventOrdered | hantro/hantro_vcmd.c:1112-1277 | each driver step and each progress of the hardware keeps the unexecuted buffers in priority order iff it is neither a tail submission behind a normal one nor a reset over an overtaken one |
| VcmdPriority.PriorityOrder | hantro/hantro_vcmd.c:1112-1277 | in every run the unexecuted buffers are in priority order at all times, high before normal and each class as submitted, iff every event is harmless in that sense |
| VcmdExact.ReleaseIsExact | hantro/hantro_vcmd.c:1588-1656 | releasing a buffer keeps the invariant iff it is done, or the core is idle and it is not the tail |
| VcmdExact.ClosedJmpIsExact | hantro/hantro_vcmd.c:1733-1751 | after a submission the hardware stops at the tail iff the new JMP was closed or another buffer stands behind it |
| VcmdExact.StaleReportRestartsFinishedWork | hantro/hantro_vcmd.c:2190-2264 | a bus error that names the first of two finished buffers starts the hardware with one ready buffer |
| VcmdExact.DoneOnlyGrows | hantro/hantro_vcmd.c:2154-2167 | in every step a done buffer stays done while it is queued |
| VcmdEngine.VcmdCore.LinkCmdbufs | hantro/hantro_vcmd.c:1282-1411 | vcmd_link_cmdbuf in place equals Link |
| VcmdEngine.VcmdCore.DelinkCmdbufs | hantro/hantro_vcmd.c:1420-1438 | vcmd_delink_cmdbuf in place equals Delink |
| VcmdEngine.VcmdCore.ChainCovers | hantro/hantro_vcmd.c:1337-1366 | in a chain the words of every buffer lead to the next one's address, with a length that covers it |
| VcmdEngine.VcmdCore.StartAt | hantro/hantro_vcmd.c:405-543 | vcmd_start in place equals Start: address, id, ready count, and a length that covers the buffer |
| VcmdEngine.VcmdCore.MarkDoneBefore | hantro/hantro_vcmd.c:2307-2321 | the backward marking loop in place equals MarkBack |
| VcmdEngine.VcmdCore.IndexOfAddr | hantro/hantro_vcmd.c:2118-2150 | the search for the undone buffer being executed at an address |
| VcmdEngine.VcmdCore.Interrupt | hantro/hantro_vcmd.c:1986-2519 | the interrupt handler in place equals Isr |
| VcmdEngine.VcmdCore.SelectPlace | hantro/hantro_vcmd.c:850-1280 | select_vcmd with one core: the place, the abort for high priority, or failure |
| VcmdEngine.VcmdCore.LinkAndRunCmdbuf | hantro/hantro_vcmd.c:1699-1850 | link_and_run_cmdbuf in place equals Submit; on newer hardware a queued buffer gets the addresses of the register dumps |
| VcmdEngine.VcmdCore.DelinkRemove | hantro/hantro_vcmd.c:3417-3448 | removal from a linked chain in place equals DelinkRemove |
| VcmdEngine.VcmdCore.UpdateJmp | hantro/hantro_vcmd.c:3338-3396 | rewriting the words of a predecessor decodes to a jump to the next buffer, or to a closed JMP |
| VcmdEngine.VcmdCore.SuspendCore | hantro/hantro_vcmd.c:4211-4237 | vcmd_pm_suspend in place equals Suspend |
| VcmdEngine.VcmdCore.ResumeCore | hantro/hantro_vcmd.c:4247-4275 | vcmd_pm_resume in place equals Resume |
| CmdbufPool.Pool.constructor | hantro/hantro_vcmd.c:3043-3052 | all slots free but slot 0, and the counter says so |
| CmdbufPool.Pool.Allocate | hantro/hantro_vcmd.c:741-807 | fails iff the residual is zero; otherwise terminates with the cyclically next free slot, never 0 and never a live one |
| CmdbufPool.Pool.Free | hantro/hantro_vcmd.c:595-604 | exactly one slot becomes free and the residual counts it |
| CmdbufPool.FreeCountUpdate | hantro/hantro_vcmd.c:741-807 | setting or clearing one flag changes the count of free slots by one |
| CmdbufPool.AddressAndIdAgree | hantro/hantro_vcmd.c:2203-2229 | for buffers in their own slots, looking up an address inside an undone buffer and looking up its id give the same buffer |
| VcmdDevice.Device.QueueInSlots | hantro/hantro_vcmd.c:741-831 | in every state of the device each queued buffer lies in its own slot |
| VcmdDevice.Device.LookupsAgree | hantro/hantro_vcmd.c:2203-2229 | so search by address, search by id and the table of live buffers name the same buffer |
| VcmdDevice.Device.TableLookupIsExact | hantro/hantro_vcmd.c:2483-2492 | an id means the same in the table of live buffers and in the queue iff it is not that of a buffer reserved but not queued |
| VcmdDevice.Device.Open | hantro/hantro_vcmd.c:3451-3490 | a new client has nothing charged |
| VcmdDevice.Device.Reserve | hantro/hantro_vcmd.c:1482-1530 | succeeds iff the size is at most a slot, the client is known, its charge with the new time is within the budget and a slot is free; then gives the next free slot; conservation of the charge iff it succeeded, was turned down first or asked for no time |
| VcmdDevice.Device.SlotsKeepApart | hantro/hantro_vcmd.c:606-643 | the buffers of a queue have distinct nonzero ids and distinct addresses because each is the live buffer of its slot |
| VcmdDevice.Device.ReservedIsFresh | hantro/hantro_vcmd.c:1500-1523 | a reserved buffer shares neither id nor address with anything queued, which is what submission relies on |
| VcmdDevice.Device.LinkAndRun | hantro/hantro_vcmd.c:1699-1740 | only the owner can submit its live buffer, and slots and charges stay as they are; for a buffer not yet queued and of a fitting size |
| VcmdDevice.Device.Release | hantro/hantro_vcmd.c:1588-1656 | the queue loses exactly what Release says, each removed slot returns to the pool once, each owner's charge drops by the times of its removed buffers |
| VcmdDevice.Device.SweepFrom | hantro/hantro_vcmd.c:1626-1652 | the release loop in place equals Sweep and keeps slots and charges in step |
| VcmdDevice.Device.DelinkRemove | hantro/hantro_vcmd.c:3417-3448 | the removed buffer leaves queue and table and its slot is free |
| VcmdDevice.Device.ReleaseNotLinked | hantro/hantro_vcmd.c:1532-1585 | a buffer that was never submitted gives its slot back, and charges are conserved iff its time is zero |
| VcmdDevice.SubtractsBack | hantro/hantro_vcmd.c:1641-1643 | 32-bit subtraction undoes 32-bit addition |
| SelectCore.ChosenUnique | hantro/hantro_vcmd.c:871-1118 | queues, reports, mask and position determine the chosen core and the new position |
| SelectCore.ChosenIsSupported | hantro/hantro_vcmd.c:840-848 | the chosen core is inside the requested mask, and there is none iff the mask names none |
| SelectCore.OwnReportCounts | hantro/hantro_vcmd.c:1041-1076 | a core that reports a buffer of its own queue needs the time from there on; other reports are looked up among all cores and reserved buffers |
| SelectCore.TimeIsSum | hantro/hantro_vcmd.c:701-716 | the remaining time is the sum of the times to the end of the queue, in 32 bits |
| SelectCore.RemainingIsNeeded | hantro/hantro_vcmd.c:1003-1076 | it starts at the reported buffer wherever it is queued, is that of a reserved buffer alone, or starts at the first linked undone one; on older hardware at the first buffer that holds the address, finished or not |
| SelectCore.ChosenHasLeastWork | hantro/hantro_vcmd.c:1091-1111 | the chosen core has the least such sum of all supported ones, and less than those behind it in cyclic order |
| SelectCore.OneBitMask | hantro/hantro_vcmd.c:840-848 | a mask of one bit supports that core and no other |
| SelectCore.OneCoreAgrees | hantro/hantro_vcmd.c:850-1118 | with one core the choice fails exactly when the one-core submission rejects |
| SelectCore.Selector.Search | hantro/hantro_vcmd.c:871-997 | one round finds the cyclically first core, and visits each once |
| SelectCore.Selector.AddTimes | hantro/hantro_vcmd.c:1003-1088 | every supported core's remaining time, or the first core that cannot be read |
| SelectCore.Selector.PickLeast | hantro/hantro_vcmd.c:1091-1111 | the least time, the last of equals in cyclic order; unset iff the mask names no core |
| SelectCore.Selector.SelectNormal | hantro/hantro_vcmd.c:850-1118 | empty core first, else finished, else caught up, else least remaining time, always in the mask |
| MmuSpec.FindFree | hantro/hantro_mmu.c:617-631 | first fit: the first node that is large enough, none iff none is |
| MmuSpec.EntryIsExact | hantro/hantro_mmu.c:1369-1382 | a page-table entry gives back its address iff that is 4 KiB-aligned and below 2^40 |
| MmuSpec.EntryPermits | hantro/hantro_mmu.c:1369-1382 | an entry is present and writable and takes no exception |
| MmuRegions.SplitKeeps | hantro/hantro_mmu.c:633-678 | splitting keeps the partition, the page counts, the radix-1024 ends and the gaps between free nodes |
| MmuRegions.InsertFreeAbsorbs | hantro/hantro_mmu.c:308-427 | freeing covers exactly the old free pages and the node's, with no two free nodes adjacent |
| MmuMapping.TableIsExact | hantro/hantro_mmu.c:1353-1460 | a table entry of the region is nonzero iff its page is mapped |
| MmuMapping.MapKeeps | hantro/hantro_mmu.c:1353-1388 | mapping keeps the whole invariant |
| MmuMapping.MapKeepsOthers | hantro/hantro_mmu.c:1362-1388 | mapping changes no entry of another buffer |
| MmuMapping.UnmapKeeps | hantro/hantro_mmu.c:1434-1460 | unmapping keeps the whole invariant |
| MmuMapping.UnmapKeepsOthers | hantro/hantro_mmu.c:1439-1450 | unmapping changes no entry of another buffer |
| MmuMapping.MapFindsRoom | hantro/hantro_mmu.c:617-631 | mapping succeeds iff the region has a contiguous run of that many free pages |
| MmuMapping.WalkFindsEntry | hantro/hantro_mmu.c:1694-1706 | the two-level walk of a bus address reads the entry of its page, carries included |
| MmuMapping.TranslationIsCorrect | hantro/hantro_mmu.c:1362-1391 | byte off of page k of a mapped buffer translates to its own physical page iff that page is aligned and below 2^40 |
| MmuMapping.MtlbEntryPermits | hantro/hantro_mmu.c:1694-1706 | a first-level entry is present, for 4 KiB pages, and takes no exception |
| MmuMapping.MappedIsWritable | hantro/hantro_mmu.c:1369-1382 | every page of every mapped buffer is present and writable |
| MmuMapping.UnmappedDoesNotTranslate | hantro/hantro_mmu.c:1439-1450 | a page of the region outside every buffer does not translate |
| MmuMapping.UnmapUndoesMap | hantro/hantro_mmu.c:1353-1460 | mapping and unmapping restores the free runs, the mapped list and the table |
| MmuMapping.AllFreeIsOneNode | hantro/hantro_mmu.c:308-376 | with nothing mapped one free node spans the region |
| MmuSpace.ApplyStaysInside | hantro/hantro_mmu.c:1353-1460 | an operation writes only entries of the pages its region claims |
| MmuSpace.BuffersAreIsolated | hantro/hantro_mmu.c:1353-1460 | no map or unmap in any region, other than its own unmap, changes what a buffer translates to |
| MmuSpace.DisturbanceIsExact | hantro/hantro_mmu.c:1353-1460 | some run in one of two regions changes what a buffer of the other translates to iff the pages they claim overlap |
| MmuSpace.ShippedRegionsDisturb | include/hantrommu.h:33-38 | of the shipped regions exactly OUT with PRIVATE and PRIVATE with PUB disturb each other |
| MmuWidths.ApplyTrim | hantro/hantro_mmu.c:308-427 | a region that counts at most one page more than it is wide does to its nodes what the exact region of that count would do |
| MmuWidths.EveryClaimIsPartitioned | hantro/hantro_mmu.c:308-427 | for a count up to one more than the width: after any maps and unmaps each claimed page is in one node, counts add up, ends of mapped nodes are exact, free nodes do not touch, entries are nonzero iff mapped |
| MmuWidths.EveryClaimTranslates | hantro/hantro_mmu.c:1362-1388 | for such a count every byte of every buffer translates to its own page iff that page is aligned and below 2^40 |
| MmuWidths.EveryClaimIsWritable | hantro/hantro_mmu.c:1369-1382 | in every reachable state every page of every buffer is present and writable |
| MmuWidths.TranslationIsIsolated | hantro/hantro_mmu.c:1362-1460 | no map or unmap of other buffers of the same region changes what a buffer translates to |
| MmuWidths.PartitionIsExact | hantro/hantro_mmu.c:308-427 | the claimed pages stay partitioned in every run iff the count is at most one more than the width |
| MmuWidths.EscapesIffOverclaimed | hantro/hantro_mmu.c:544-585 | some run maps a page outside the region iff its count exceeds its width |
| MmuWidths.ShippedCounts | hantro/hantro_mmu.c:544-585 | IN counts two pages fewer than its width, OUT, PRIVATE and PUB one more |
| MmuWidths.ShippedRegionsTranslate | hantro/hantro_mmu.c:544-585 | all four shipped regions partition their claim in every run and translate every byte of every buffer |
| MmuWidths.ShippedRegionsEscape | hantro/hantro_mmu.c:544-585 | of the shipped regions exactly IN keeps to itself in every run |
| MmuWidths.NextRegionIsHit | include/hantrommu.h:33-38 | the page OUT and PRIVATE hand out beyond their end is the first page of the next region |
| MmuRuns.PageCountCovers | hantro/hantro_mmu.c:1291-1291 | the pages computed from a size cover it exactly iff it is nonzero and below 2^44 - 4095 |
| MmuDriver.StaysInTable | hantro/hantro_mmu.c:877-885 | no node reaches past the table and no bus address is cut off |
| MmuDriver.MmuRegion.constructor | hantro/hantro_mmu.c:494-600 | a region starts as one free node with the count it is given |
| MmuDriver.MmuRegion.SplitFreeNode | hantro/hantro_mmu.c:633-678 | splitting in place equals Split |
| MmuDriver.MmuRegion.MergeNode | hantro/hantro_mmu.c:308-376 | joining in place equals InsertFree |
| MmuDriver.MmuRegion.InsertNode | hantro/hantro_mmu.c:393-427 | moving a mapped node to the free list in place equals InsertFree |
| MmuDriver.MmuRegion.MapBuffer | hantro/hantro_mmu.c:1353-1388 | MMUMemNodeMap in place equals Map, and returns the bus address |
| MmuDriver.MmuRegion.UnmapBuffer | hantro/hantro_mmu.c:1434-1466 | MMUMemNodeUnmap in place equals Unmap |
| MmuDriver.FillMtlb | hantro/hantro_mmu.c:1694-1706 | the first-level table points at the second-level tables in order |
| ChunkAllocator.ScanIsFirstFit | hantro/hantro_fpga_mem.c:101-133 | the scan finds the lowest fitting place though interior chunks read zero, and fails iff there is none |
| ChunkAllocator.AllocIsFirstFit | hantro/hantro_fpga_mem.c:88-153 | allocation returns the lowest start whose whole run is free, and fails iff none exists |
| ChunkAllocator.AllocKeeps | hantro/hantro_fpga_mem.c:121-128 | exactly the returned run becomes busy and the table stays consistent |
| ChunkAllocator.FreeKeeps | hantro/hantro_fpga_mem.c:158-179 | freeing gives back exactly the run that starts at the chunk, which is none for an inner or free chunk |
| ChunkAllocator.FreeUndoesAlloc | hantro/hantro_fpga_mem.c:88-179 | free undoes alloc |
| ChunkAllocator.LiveRunsNeverOverlap | hantro/hantro_fpga_mem.c:88-179 | live runs are in bounds and disjoint under any sequence of calls |
| ChunkAllocator.LiveBytesNeverOverlap | hantro/hantro_fpga_mem.c:88-205 | their memory, from the address over the size asked for, lies in the table's memory and is disjoint |
| ChunkAllocator.ZeroBytesAreGivenAwayAgain | hantro/hantro_fpga_mem.c:96-133 | a request for zero bytes reserves nothing and its address is given to the next request |
| ChunkAllocator.Chunks.constructor | hantro/hantro_fpga_mem.c:184-215 | a fresh table is all free |
| ChunkAllocator.Chunks.FindPlace | hantro/hantro_fpga_mem.c:101-133 | the index loop terminates and equals Scan |
| ChunkAllocator.Chunks.MemAlloc | hantro/hantro_fpga_mem.c:88-153 | allocation in place equals Alloc, 0 iff it fails |
| ChunkAllocator.Chunks.MemFree | hantro/hantro_fpga_mem.c:158-179 | fails iff no chunk has the address, and otherwise frees it |
| EncoderCores.TakeConserves | hantro/hx280enc.c:402-407 | taking a core moves one from missing to held in the packed word |
| EncoderCores.TakeCoresTakes | hantro/hx280enc.c:398-417 | one pass takes only free cores, reserves exactly those, and keeps held plus missing |
| EncoderCores.CompletesIffEnoughFree | hantro/hx280enc.c:377-425 | a request completes iff at least as many cores are free as it misses, and otherwise holds every free core |
| EncoderCores.WakeCompletes | hantro/hx280enc.c:377-425 | a woken request completes iff enough cores are free, and otherwise holds every free one as well |
| EncoderCores.ReserveCompletes | hantro/hx280enc.c:427-447 | a new request completes at once, with exactly as many cores as asked for, iff that many are free |
| EncoderCores.CompletedBy | hantro/hx280enc.c:408-413 | a completed request is handed a word that names above the mask the core that completed it, one newly taken |
| EncoderCores.AsksForEight | hantro/hx280enc.c:387-395 | bits 30 to 28 ask for one core more than they count |
| EncoderCores.ReleaseKeeps | hantro/hx280enc.c:449-495 | releasing a granted mask frees exactly its cores |
| EncoderCores.MaskIsExact | hantro/hx280enc.c:449-495 | releasing any mask keeps the accounts iff it names no core that a request holds |
| EncoderCores.SecondReleaseSharesTheCore | hantro/hx280enc.c:565-578 | a mask released a second time lets two clients hold the same core |
| EncoderCores.EveryInterleavingIsExact | hantro/hx280enc.c:358-495 | over any interleaving, at all times: held plus missing is the number asked for, complete requests hold exactly that, no core is held twice, reserved iff held; iff no mask released out of turn names a held core |
| EncoderCores.InterruptedCoresAreLost | hantro/hx280enc.c:439-445 | what an interrupted wait had collected stays reserved for ever |
| EncoderCores.InterruptLosesCores | hantro/hx280enc.c:439-445 | from the signal on the request never completes and its cores stay reserved |
| EncoderCores.Encoders.CheckCoreOccupation | hantro/hx280enc.c:358-375 | reserves a free core for the process, and only a free one |
| EncoderCores.Encoders.GetWorkableCore | hantro/hx280enc.c:377-425 | the wait condition in place equals TakeCores and hands back the mask when complete; a word already complete changes nothing |
| EncoderCores.Encoders.ReleaseEncoder | hantro/hx280enc.c:449-495 | exactly the cores of the mask are freed, and the walk follows a null pointer iff the mask has a bit behind the end and none at it |
| BiList.PointersDetermineSequence | hantro/bidirect_list.c:82-160 | head, tail and links determine one sequence of nodes |
| BiList.List.InsertTail | hantro/bidirect_list.c:82-99 | append |
| BiList.List.AppendTwice | hantro/bidirect_list.c:82-99 | appending a node already on the list leaves pointers no sequence matches |
| BiList.List.InsertBefore | hantro/bidirect_list.c:101-128 | insert at an index, at the end for a null base |
| BiList.List.Remove | hantro/bidirect_list.c:130-160 | delete at an index; the removed node keeps its own links, which still lead to its old neighbours |

## Left out

- VcmdEngine.VcmdCore: the queue is a sequence of objects; that the pointer list refines such a sequence is `BiList`, and the two are not joined in one class.
- VcmdDevice.Device.Reserve: waiting for budget or for a slot is an enabling condition or an interrupting signal; wait queues, semaphores and spinlocks as such are not modelled.
- VcmdEngine.VcmdCore.Interrupt: the table of live buffers is searched as the queue of this core; `VcmdDevice.Device.TableLookupIsExact` says when that is the same, and what the driver does to a buffer reserved but not queued is not modelled.
- VcmdEngine.VcmdCore.SelectPlace: high priority with several cores is not modelled; the driver then works with variables left over from an earlier loop.
- VcmdDevice.Device.LinkAndRun: a buffer already queued and a size that does not fit the slot are not among its inputs, because the driver then corrupts its list (`BiList.List.AppendTwice`) or words of this or another buffer (`VcmdMemory.OwnSlot`).
- VcmdEngine.VcmdCore.LinkAndRunCmdbuf: sizes up to 65535 are taken, but a buffer keeps words of its own; for sizes that do not fit, see `VcmdMemory`.
- VcmdExact.ClosedJmpIsExact: for sizes that fit; on newer hardware the driver overwrites the JMP of a buffer of 20 to 27 bytes after testing it (`VcmdMemory.DumpHitsOpcode`).
- VcmdMirror.MemoryWalkIsTheQueue: `vcmd_delink_rm_cmdbuf`, which only the process clean-up calls, is not among its steps.
- VcmdEngine.VcmdCore.SelectPlace: a high-priority submission whose wait for the abort is interrupted by a signal is the abort step alone.
- MmuWidths.EveryClaimIsPartitioned: map requests of no pages are excluded; the page count is zero only for a size of zero (`MmuRuns.PageCountCovers`).
- MmuSpace.BuffersAreIsolated: choosing among regions by physical address is not modelled.
- EncoderCores.EveryInterleavingIsExact: at most eight cores, the width of the mask; no claim that a waiting client ever completes, since clients hold cores while they wait.
- EncoderCores.Encoders: the cores are entries of two arrays, not a linked list of records.
- MmuDriver.MmuRegion: the free and map lists are sequences of node objects; the links between nodes are not modelled.
- ChunkAllocator.Chunks.MemAlloc: the flag that only marks a chunk as owned is not kept.
- `hantrovcmd_release` and the process clean-up around it: they poll the hardware in a loop; only the removal helper they use is modelled.
- `MMURelease`, simple-map mode and the process page-table query of the MMU.
- END commands at the end of a buffer, and the bus-address variant of the JMP words under HAS_MMU.
- Register access, interrupt registration, memory mapping, the DRM, GEM, dma-buf and fence layers, device probing and the decoder driver.
- `hantro/devicemgr.c`, `hantro/hantro_mem_pool.c` and the register tables.
- Liveness of waiting clients.
