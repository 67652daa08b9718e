# A verified model of the oops-mesa shim

oops-mesa lets an unmodified Mesa run where there is no kernel driver: a shim answers libdrm's
requests from the platform's direct-memory and graphics calls, and a small runtime supplies what the
C and C++ libraries lack. This project models the parts of the shim whose correctness does not show
from reading one function, and proves it.

| files | component |
|---|---|
| `PlatformMemory`, `BufferModel`, `BufferInvariant`, `BufferSteps`, `BufferTheorems`, `BufferStability`, `BufferMaps`, `BufferWitness`, `BufferManager` | buffer objects, GPU addresses and the cache of retained ranges (`src/winsys/buffers.c`) |
| `Pm4`, `ChainFlattening`, `ChainLayout` | the PM4 packet walk and the flattening of chained command streams (`src/winsys/submit.c`) |
| `FenceProtocol`, `FenceOutcomes` | the submission and fence protocol between CPU and GPU (`src/winsys/submit.c`) |
| `Contexts`, `ResetHistory` | contexts and their reset history (`src/winsys/context.c`), alone and together with submission |
| `CxaGuard`, `NextPrime` | one-time construction guards and the prime search (`src/runtime/cxx_support.cpp`) |
| `CivilTime`, `Environment` | `localtime_r` and the environment table (`src/runtime/libc_absent.c`) |
| `EmuTls` | emulated thread-local storage (`src/runtime/emutls.c`) |
| `LineLog` | line buffering to the system log (`src/runtime/stderr_to_klog.c`) |

`dafny verify dfyconfig.toml` checks everything.

## How the model is built

**Buffers.** `BufferModel` holds the state (both tables, both counters and the machine's memory) and
one function per operation; `BufferManager.Manager` is the in-place code with its loops over two
arrays, and each method is proved to compute its function. The machine's memory is a set of allocated
blocks and one translation table for the address space that CPU and GPU share, kept per byte.
`BufferInvariant.Inv` says that the address space is exactly the disjoint union of what live buffers
and retained ranges claim, that every claim is backed by a whole allocated block, that every block has
exactly one owner, that no free was ever wrong, and that the retention accounts are exact.

The code relies on conditions it does not check. `BufferTheorems.MapVerdict` gives the exact one for
every map call: a map that succeeds keeps the invariant if and only if `SafeMap` holds before the
call. For an unmapped buffer at a nonzero address this means that a fresh mapping covers the whole
buffer and meets no live window, and that a buffer taking a retained range over has no retained range
on its own pages. The comment at `src/winsys/buffers.c:582-585` says "a new buffer", but the code
does not ask. `BufferWitness` holds one short run from the start for each way of failing, safe up to
its last call: in `TakeOverByAnOldBuffer` an older buffer takes over and a page that is still mapped
is freed. Accounting and eviction order need none of this.

Answers of the platform (is memory granted, and where; is a mapping accepted) are parameters of the
operations. `BufferTheorems.Lawful` states what is relied on: it grants only memory and addresses that
are free. It is also relied on that no accepted range ends past the last 64-bit address.

**Submission.** Memory is a function from addresses to dwords. The reference for flattening is a
command processor that executes packet by packet and jumps at each complete chain packet; an
INDIRECT_BUFFER is a tail jump, as the code treats it (`ISSUES.md:17`). `ChainLayout` builds chains in
memory from their meaning, link by link, and proves that exactly their packets are executed. The fence protocol is a step
system: the CPU steps of a call, time-outs and polls as choices, interleaved with a GPU that retires
one in-order queue. Two findings.

- Every submission waits for the same word, so a fence write that a timed-out call left behind can
  answer for a later one. The exact condition is on the queue at the moment a call arms the word
  (`CleanArming`): no fence write may be pending, or, if only streams matter, none ahead of a stream.
  Runs whose armings are clean never hand out a number too early, whatever timed out before
  (`FenceSafety`); every arming that is not clean has a continuation that does
  (`EveryUncleanArmingLies`, and `ArmingVerdict` for both directions).
- `ensure_queue` reports success from the second call on even if the fence was refused. A run ends in
  the write through the null pointer if and only if the fence was refused when the queue was granted
  and a later call got as far as its fence (`CrashIff`); until then no number is ever given out.

The header comment says WAIT_CS always answers "signalled"; the code refuses handles it never gave
out, and the model follows the code.

**Runtime.** The guards and emulated TLS are step systems over any number of threads and any
interleaving; everything else is the sequential code. Atomic operations are taken as sequentially
consistent, which the acquire and release orders of the source do not promise in general. Emulated
TLS keeps its invariant exactly as long as `pthread_setspecific` does not refuse a grown array to a
thread that had one (`EmuTls.GoodThroughoutIff`). The comment on `__next_prime` promises the next
prime at or above `n`; the code never returns 3 (`LeastIffNotThree`) and returns 1 when the next prime
does not fit in 64 bits (`NextPrimeFrom`). Its squares wrap, but its inner loop is right for every
64-bit candidate all the same (`TrialDivision`).

## Model

| member | source | states |
|---|---|---|
| BufferModel.RoundUpPage | src/winsys/buffers.c:165-167 | the next multiple of the page size; 0 exactly for 0 and where the 64-bit sum wraps |
| BufferModel.ProtOf | src/winsys/buffers.c:502-507 | CPU and GPU get the same rights at the one address, and never none |
| BufferModel.TokenRoundTrip | src/winsys/buffers.c:394-409 | every 32-bit handle is read back from its mmap token |
| BufferSteps.ReleaseKeeps | src/winsys/buffers.c:212-228 | unmapping a retained range, handing its pages on or freeing them, keeps every part of the invariant |
| BufferSteps.LastUser | src/winsys/buffers.c:214-226 | pages that a release frees are mapped by no other retained range and belong to no live buffer |
| BufferSteps.EvictFits | src/winsys/buffers.c:247-250 | the eviction loop ends only when the new bytes fit in 256 MiB or nothing is retained |
| BufferSteps.RoomMade | src/winsys/buffers.c:247-260 | after both loops there is a free slot and the accounts still balance |
| BufferSteps.UnmapKeeps | src/winsys/buffers.c:649-657 | an unmapped window moves to a retained slot while the buffer keeps its pages |
| BufferSteps.CloseMappedKeeps | src/winsys/buffers.c:380-385 | a closed, mapped buffer hands window and pages to a retained slot |
| BufferSteps.AdoptKeeps | src/winsys/buffers.c:272-281 | the pages of a closed, unmapped buffer go to a range that still maps them |
| BufferSteps.ReclaimKeeps | src/winsys/buffers.c:593-598 | a buffer coming back to its own retained range changes nothing in memory and keeps the invariant |
| BufferSteps.TakeOverKeeps | src/winsys/buffers.c:599-608 | a take-over by a buffer with no retained range of its own keeps the invariant and every translation |
| BufferTheorems.MapKeepsIff | src/winsys/buffers.c:510-648 | mapping an unmapped buffer at a nonzero address keeps the invariant if and only if the map is harmless |
| BufferTheorems.RemapLosesTheOldRange | src/winsys/buffers.c:630-631 | mapping a buffer that is mapped elsewhere always loses the old range |
| BufferTheorems.ZeroAddressIsForgotten | src/winsys/buffers.c:630-657 | a mapping at address zero is never claimed by anyone |
| BufferTheorems.MapVerdict | src/winsys/buffers.c:510-648 | for every map call on every good state, success keeps the invariant if and only if the map is safe; a refusal always keeps it |
| BufferTheorems.CloseKeeps | src/winsys/buffers.c:356-387 | closing any handle keeps the invariant |
| BufferTheorems.VaUnmapKeeps | src/winsys/buffers.c:649-657 | unmapping any handle keeps the invariant |
| BufferTheorems.ApplyKeepsIff | src/winsys/buffers.c:287-684 | any one call keeps the invariant if and only if it is not an unsafe map |
| BufferTheorems.GoodThroughoutIff | src/winsys/buffers.c:287-684 | the invariant holds after every call of a run if and only if each map is safe when it is made |
| BufferTheorems.OwnershipOverRuns | src/winsys/buffers.c:205-387 | over every such run each block has exactly one owner, no free is wrong or repeated, and nothing is left once nothing is live or retained |
| BufferTheorems.AddressSpaceOverRuns | src/winsys/buffers.c:510-657 | over every such run each mapped byte belongs to exactly one window and translates into the allocated block behind it |
| BufferWitness.TakeOverByAnOldBuffer | src/winsys/buffers.c:599-608 | a lawful run of safe calls after which one take-over leaves a mapped byte on a freed page |
| BufferWitness.ShortMapRun | src/winsys/buffers.c:511-631 | a lawful run after which a map of one page of two leaves a claimed byte unmapped |
| BufferWitness.CollisionRun | src/winsys/buffers.c:565-631 | a lawful run after which two live buffers claim one byte and the first one's translation is gone |
| BufferWitness.PartialRightsRun | src/winsys/buffers.c:511-631 | a lawful run after which a partial map of a mapped buffer with other rights leaves a byte with rights its buffer no longer records |
| BufferWitness.RemapRun | src/winsys/buffers.c:630-631 | a lawful run after which a second map leaves a mapped byte that nobody claims |
| BufferWitness.ZeroAddressRun | src/winsys/buffers.c:630-657 | a lawful run after which a map at address zero leaves address zero mapped and claimed by nobody |
| BufferStability.RoomOrder | src/winsys/buffers.c:230-260 | every range evicted to make room was retained before every range that survives |
| BufferStability.EvictOnlyIfNeeded | src/winsys/buffers.c:247-250 | the loop evicts no longer than needed: without the last eviction the new bytes would not have fitted |
| BufferStability.NothingEvictedThatFits | src/winsys/buffers.c:247-260 | with room and a free slot nothing is evicted |
| BufferStability.CreateOutcome | src/winsys/buffers.c:287-354 | exactly when a create succeeds, with which answer it is refused, which handle it takes and every field of the new buffer; a refusal changes nothing |
| BufferStability.CloseOutcome | src/winsys/buffers.c:356-387 | a close clears one entry and touches no other buffer, whatever it evicts; an unmap clears one address |
| BufferStability.RetentionOverRuns | src/winsys/buffers.c:205-269 | over every run whatsoever the byte count is the exact sum, and exceeds 256 MiB only while one range alone is retained |
| BufferStability.UnmapTranslations | src/winsys/buffers.c:649-657 | an unmap changes no translation; bytes are lost only with evicted ranges |
| BufferStability.CloseTranslations | src/winsys/buffers.c:356-387 | a close takes away its own CPU window and evicted ranges, and changes nothing else |
| BufferStability.KeepingMapTranslations | src/winsys/buffers.c:587-609 | a map that finds a retained range with its address, size and rights, of its own pages or of a closed buffer's, succeeds and leaves the page table unchanged |
| BufferStability.PagesChangeOnlyByFreshMap | src/winsys/buffers.c:587-631 | an address changes pages only when a fresh map covers a retained range that could not be kept |
| BufferStability.CpuSeesWhatGpuSees | src/winsys/buffers.c:406-425 | CPU pointer and GPU address of a live buffer name the same physical bytes |
| BufferStability.CpuForVaCoherent | src/winsys/buffers.c:773-789 | a non-null answer stays inside the buffer if and only if offset plus count does not wrap, and then addresses the bytes the GPU sees |
| BufferStability.CpuForVaComplete | src/winsys/buffers.c:773-789 | for an address inside a live buffer with both mappings, exactly that buffer's CPU address or null |
| BufferStability.CpuForVaNone | src/winsys/buffers.c:773-789 | null for every address that no such buffer holds |
| BufferStability.CpuMapVaComplete | src/winsys/buffers.c:794-812 | null without effect for an address no live buffer holds; otherwise null exactly when the platform refused or the wrapping test finds the range outside, and a non-null answer for a count that does not wrap addresses the GPU's bytes |
| BufferMaps.MapKeepsPages | src/winsys/buffers.c:587-609 | if some retained range has the address, size and rights, and the buffer's own pages or pages it owns while the buffer has no CPU mapping and that size, the map succeeds, changes no translation and takes the first such range over |
| BufferMaps.ClosedPagesAreTakenOver | src/winsys/buffers.c:599-608 | a new buffer at a freed address gives its own pages back and takes the closed buffer's, so the address keeps its pages |
| BufferMaps.FreshMapOutcome | src/winsys/buffers.c:610-648 | without such a range nothing is kept: the map succeeds exactly when the platform accepts it and then shows the buffer's own pages with the rights asked for; met ranges go, all others, all other buffers and all other translations stay |
| BufferMaps.RequestAnswers | src/winsys/buffers.c:479-684 | every answer of the address request: which refusal when, and that a refusal changes nothing but the ranges a declined map met |
| BufferMaps.CloseAnswers | src/winsys/buffers.c:356-387 | a close succeeds exactly for a live handle |
| BufferMaps.UnmapRetains | src/winsys/buffers.c:649-657 | an unmapped window is the newest retained range, of pages that stay the buffer's |
| BufferMaps.CloseRetains | src/winsys/buffers.c:374-385 | a closed buffer's window is the newest retained range and owns the pages |
| BufferManager.Manager.constructor | src/winsys/buffers.c:61-203 | both tables start empty |
| BufferManager.Manager.RetainedDrop | src/winsys/buffers.c:205-208 | empties the slot and takes its size off the 64-bit count |
| BufferManager.Manager.RetainedRelease | src/winsys/buffers.c:212-228 | the in-place release with its hand-on search computes the model's release |
| BufferManager.Manager.RetainedReleaseOldest | src/winsys/buffers.c:230-241 | the search finds the range retained first, and that one is released |
| BufferManager.Manager.Evict | src/winsys/buffers.c:247-250 | the eviction loop ends, computes the model's eviction and keeps the accounts |
| BufferManager.Manager.FindSlot | src/winsys/buffers.c:251-260 | ends with the first free slot, after at most one more eviction |
| BufferManager.Manager.RetainRange | src/winsys/buffers.c:243-269 | both eviction loops end, and the new range lands in the first free slot with the next order number |
| BufferManager.Manager.RetainedAdoptPages | src/winsys/buffers.c:272-281 | the first range on these pages becomes their owner; false exactly when there is none |
| BufferManager.Manager.GemCreate | src/winsys/buffers.c:287-354 | lowest free handle, rounded size, every refusal without effect |
| BufferManager.Manager.CloseBuffer | src/winsys/buffers.c:374-385 | CPU unmap, retain or adopt or free, then clearing the entry, in that order, is the model's close |
| BufferManager.Manager.GemClose | src/winsys/buffers.c:356-387 | the in-place close computes the model's close and keeps the invariant |
| BufferManager.Manager.GemMmap | src/winsys/buffers.c:394-404 | a token exactly for a live handle, and that handle is what `Mmap` reads back from it |
| BufferManager.Manager.Mmap | src/winsys/buffers.c:406-425 | the CPU address of the buffer whose handle the offset carries; null exactly for a dead handle, a longer length or a refused mapping |
| BufferManager.Manager.EnsureCpu | src/winsys/buffers.c:415-423 | maps a live buffer for the CPU once, or reports the refusal |
| BufferManager.Manager.BoCpuRange | src/winsys/buffers.c:437-461 | a non-null answer lies wholly inside the buffer's CPU window; null exactly when it would not or the platform refuses |
| BufferManager.Manager.KeepRetained | src/winsys/buffers.c:587-609 | the first search of a map keeps a range exactly when one qualifies, its own or a closed buffer's, and then the first |
| BufferManager.Manager.MapBuffer | src/winsys/buffers.c:510-648 | the in-place map computes the model's map, with every refusal |
| BufferManager.Manager.GemVaCall | src/winsys/buffers.c:479-684 | the whole request; the invariant survives if and only if the call behaves |
| BufferManager.Manager.CpuAddressFor | src/winsys/buffers.c:773-789 | the search computes the model's answer |
| BufferManager.Manager.CpuMapAddressFor | src/winsys/buffers.c:794-812 | the search, the mapping and the answer are the model's |
| Pm4.FindChain | src/winsys/submit.c:265-290 | the least packet boundary, before any type-1 header, with a chain header and three dwords after it, or the length |
| Pm4.WalkToChain | src/winsys/submit.c:265-290 | the 32-bit loop ends at an index where it stops, and computes the walk over packet boundaries |
| Pm4.HeaderMeaning | src/winsys/submit.c:259-285 | what a header built from type, count and opcode says: its span, whether it is invalid, whether it is a chain |
| Pm4.EveryWordIsAHeader | src/winsys/submit.c:259-263 | every 32-bit word is a header so built |
| Pm4.IndexNeverWrapsIff | src/winsys/submit.c:287 | the index is exact at every packet boundary of every stream of a length if and only if that length plus 0x4000 is below 2^32 |
| Pm4.LoopEndsIff | src/winsys/submit.c:265-290 | the 32-bit loop ends on every stream of a length if and only if that length plus 0x4000 is below 2^32; a stream on which it never ends otherwise |
| Pm4.HeadersDecide | src/winsys/submit.c:250-263 | streams that agree at packet boundaries have the same first chain, whatever their payloads |
| Pm4.DecodeEncode | src/winsys/submit.c:259-263 | well-formed packet lists decode to themselves |
| Pm4.EncodeDecode | src/winsys/submit.c:259-263 | decoded packets are well formed and encode to a prefix of the stream |
| Pm4.ChainOfEncoded | src/winsys/submit.c:265-290 | in an encoded list the answer is the offset of the first complete chain packet |
| ChainFlattening.FlatteningPreservesMeaning | src/winsys/submit.c:292-327 | the segments submitted, executed one after the other, are the packets of a command processor that follows the chain, minus the chain packets |
| ChainFlattening.WholeChainIff | src/winsys/submit.c:292-327 | the call succeeds if and only if the chain ends within the bound, and then any longer bound gives the same packets; at most 16 submissions |
| ChainFlattening.QueuedIsPrefix | src/winsys/submit.c:319-325 | whatever is refused, what was queued is a prefix of what the command processor would execute |
| ChainFlattening.NoChainSubmitted | src/winsys/submit.c:237-242 | no submitted segment holds a complete chain packet |
| ChainFlattening.MoreLinks | src/winsys/submit.c:244-245 | following more links only adds packets at the end, and none once the chain has ended |
| ChainLayout.ChainTaken | src/winsys/submit.c:309-325 | a chain packet built from a 64-bit address and a 20-bit count makes both the submissions and the command processor go on at that address with that many dwords |
| ChainLayout.ChainSubmitsItsLinks | src/winsys/submit.c:292-327 | a chain of up to 16 links laid out in memory is submitted as its bodies, in order, each at its address and with its length |
| ChainLayout.ChainExecutesItsLinks | src/winsys/submit.c:236-246 | what is then executed is the packets of the links in order, word for word, and the same as by a command processor that follows the chain |
| ChainFlattening.Driver.SubmitOne | src/winsys/submit.c:329-346 | an accepted submission is appended to the queue, a refused one leaves it |
| ChainFlattening.Driver.SubmitChain | src/winsys/submit.c:292-327 | the recursive code queues a prefix of the flattening, cut only at a refusal; success means all of it and the chain ended; `ChainLayout` says what the flattening is |
| ChainFlattening.Driver.SubmitHead | src/winsys/submit.c:316-321 | the dwords before a chain packet are submitted unless there are none |
| ChainFlattening.Driver.SubmitRest | src/winsys/submit.c:322-325 | an empty target ends the chain, any other is submitted one level deeper |
| ChainFlattening.Driver.SubmitLink | src/winsys/submit.c:309-325 | head and target together queue a prefix of that link's flattening |
| FenceProtocol.FenceSafety | src/winsys/submit.c:506-619 | if every arming is clean, whatever timed out, every number returned, published or answered as signalled belongs to retired work, with everything queued before it; `FenceOutcomes` says which numbers those are |
| FenceProtocol.NothingPendingAtHandOut | src/winsys/submit.c:569-604 | if no fence write was pending at any arming, the queue is empty the moment a number is handed out |
| FenceProtocol.NumbersAreConsecutive | src/winsys/submit.c:585-604 | the sequence number is the number of successful calls; all other steps leave it alone |
| FenceProtocol.CleanArmingMeans | src/winsys/submit.c:512-523 | an arming is clean for everything exactly when no fence write is pending, and for streams exactly when none is ahead of a stream |
| FenceProtocol.ArmingVerdict | src/winsys/submit.c:506-604 | an arming that any run reaches is unclean if and only if some continuation with no further unclean arming hands out a number too early |
| FenceProtocol.EveryUncleanArmingLies | src/winsys/submit.c:506-604 | every unclean arming of every run, whatever came before, has a continuation that hands out a number too early |
| FenceProtocol.CleanWithoutTimeOut | src/winsys/submit.c:554-566 | as long as nothing has timed out every arming is clean |
| FenceProtocol.TimeOutThenLie | src/winsys/submit.c:42-43 | one time-out suffices: a run in which the next call returns sequence 1 with its work pending |
| FenceProtocol.FenceRefusedForEver | src/winsys/submit.c:82-132 | the queue is without a fence if and only if the first grant of a queue was refused its fence; this never changes, and no number is then returned or published |
| FenceProtocol.CrashIff | src/winsys/submit.c:82-132 | a run ends in the null write if and only if that fence was refused and some later call with work queued came to its fence |
| FenceProtocol.SecondCallCrashes | src/winsys/submit.c:83-85 | the refused first call followed by the crashing second |
| FenceOutcomes.CallStartsIff | src/winsys/submit.c:354-360 | a call gets past its checks exactly when its chunk list is readable and the queue exists or is granted with its fence; a call turned away leaves at most the queue |
| FenceOutcomes.CallFailsIff | src/winsys/submit.c:408-565 | a call ends without a number exactly when a stream or the fence is refused, the wait times out, or no instruction buffer was in it |
| FenceOutcomes.FailedCallHasNoNumber | src/winsys/submit.c:408-565 | such a call never gets a number, whatever happens later |
| FenceOutcomes.WordChangesOnly | src/winsys/submit.c:512-519 | the fence word is written only when a call arms it and when the GPU retires a fence write |
| FenceOutcomes.QueueAccount | src/winsys/submit.c:329-346 | over every run, what is pending is what the calls queued, in order, without what has retired |
| FenceOutcomes.PublishStep | src/winsys/submit.c:585-605 | a successful call publishes its own number in the slot it named if that can be written, and nowhere else; no other step publishes |
| FenceOutcomes.UserFencesOverRuns | src/winsys/submit.c:434-447 | over every run a slot holds the number of the last successful call that named it last and could write it, and successes are numbered 1, 2, 3, ... |
| FenceOutcomes.WaitAnswersIff | src/winsys/submit.c:607-619 | over every run a wait is answered signalled exactly for handles handed out (and for 0), refused for all larger ones, and never answered as timed out |
| Contexts.ContextTable.constructor | src/winsys/context.c:34-35 | no context is live |
| Contexts.ContextTable.Alloc | src/winsys/context.c:63-83 | the lowest id that is not live, with its priority and a clean history, no other entry touched; refused exactly when all 64 are live |
| Contexts.ContextTable.Free | src/winsys/context.c:85-93 | frees live ids only, no other entry touched |
| Contexts.ContextTable.NoteHang | src/winsys/context.c:48-55 | counts for a live id only, and the table stays what the history of calls makes it |
| Contexts.ContextTable.QueryState | src/winsys/context.c:95-108 | the count is the time-outs since the current allocation modulo 2^32; guilty exactly when that is not zero |
| Contexts.ReuseForgets | src/winsys/context.c:76-78 | a reused id starts clean, whatever happened before |
| ResetHistory.ResetCountsTimeOuts | src/winsys/context.c:48-108 | over every run of submissions, GPU and context calls, a reset query counts exactly the time-outs of calls naming that context since its allocation, modulo 2^32, and answers for live contexts only |
| ResetHistory.HistoryIsTheProtocols | src/winsys/submit.c:554-566 | the time-outs of that history are those of the submission protocol, in order |
| CxaGuard.GuardsAreOneTime | src/runtime/cxx_support.cpp:160-183 | for any threads and any schedule at most one call returns 1, a call returns 0 only after that initialiser finished, and at most one thread holds `pending` |
| CxaGuard.EveryCallCounts | src/runtime/cxx_support.cpp:160-178 | over every schedule, each call that was started is still inside, has returned 1 or has returned 0 |
| CxaGuard.DoneReturnsAtOnce | src/runtime/cxx_support.cpp:164-170 | once done, always done, and a call that looks returns 0 in that step without touching `pending` |
| CxaGuard.SomeoneProceeds | src/runtime/cxx_support.cpp:167-177 | when nobody holds `pending`, the next thread to exchange wins or finds the work done |
| CxaGuard.EveryoneCanReturn | src/runtime/cxx_support.cpp:160-183 | from every state that any schedule reaches, some continuation lets every thread return, with the guard done and exactly one initialiser run |
| CxaGuard.StepKeeps | src/runtime/cxx_support.cpp:160-183 | every atomic step of every thread keeps the protocol's invariant |
| NextPrime.WheelStep | src/runtime/cxx_support.cpp:96-101 | of six candidates from 6k - 1 only two can divide a number that 2 and 3 do not |
| NextPrime.RootSuffices | src/runtime/cxx_support.cpp:96 | no divisor below a bound beyond the root means prime |
| NextPrime.InsideLoop | src/runtime/cxx_support.cpp:96-97 | while the loop goes on it tests proper divisors only, also where the square wraps, and it goes no further than a divisor whose square wraps to 2^64 - 7 |
| NextPrime.TrialDivision | src/runtime/cxx_support.cpp:95-101 | in 64-bit arithmetic with wrapping squares, the inner loop ends and decides primality of every candidate; only 1 passes wrongly |
| NextPrime.PrimeBeyond | src/runtime/cxx_support.cpp:82-85 | Euclid's theorem: there is always a next prime |
| NextPrime.NextExists | src/runtime/cxx_support.cpp:82-94 | there is exactly one least prime other than 3 at or above `n` |
| NextPrime.NextPrimeFrom | src/runtime/cxx_support.cpp:86-106 | for every 64-bit `n` the search ends in the least prime other than 3 at or above `n` if that has 64 bits, and in 1 otherwise |
| NextPrime.NoPrimeAtTheTop | src/runtime/cxx_support.cpp:90-92 | the last six arguments have no 64-bit prime above them, so the search wraps |
| NextPrime.LeastIffNotThree | src/runtime/cxx_support.cpp:86-94 | the result is the least prime at or above `n` if and only if `n` is not 3; for 3 it is 5 |
| CivilTime.YearOfEraRight | src/runtime/libc_absent.c:169-170 | the closed form gives the March year that holds the day, and day 365 only in a leap one |
| CivilTime.MonthFromDay | src/runtime/libc_absent.c:171-174 | month and day from the day of a March year are a calendar date with the right day number |
| CivilTime.CivilRight | src/runtime/libc_absent.c:166-175 | for every day number, negative ones included, the computed date is valid and has that number |
| CivilTime.CivilInverts | src/runtime/libc_absent.c:166-175 | the computation inverts the calendar on every date |
| CivilTime.DateUnique | src/runtime/libc_absent.c:119-128 | a day number belongs to one date only |
| CivilTime.SplitSeconds | src/runtime/libc_absent.c:154-159 | truncating division repaired to days and a remainder from 0 to 86399, negative times included |
| CivilTime.DateOf | src/runtime/libc_absent.c:166-175 | the valid date with that day number |
| CivilTime.YearDay | src/runtime/libc_absent.c:176-182 | days since January 1st of that year |
| CivilTime.LocalTime | src/runtime/libc_absent.c:152-184 | all fields in range, recombining them gives back the second, weekday and day of year agree with the calendar; the 32-bit year is exact if and only if it fits |
| Environment.MatchesIffName | src/runtime/libc_absent.c:69-76 | an entry matches a name exactly when that is its name; no prefix is taken for another name |
| Environment.PutMeaning | src/runtime/libc_absent.c:284-300 | writing an entry into its slot or a free one updates the map at that name only, and no name occurs twice |
| Environment.ClearMeaning | src/runtime/libc_absent.c:313-316 | clearing a slot removes that name only |
| Environment.Env.constructor | src/runtime/libc_absent.c:65-66 | the environment starts empty |
| Environment.Env.Find | src/runtime/libc_absent.c:69-76 | the slot of the name, or -1 exactly when it is not set |
| Environment.Env.GetEnv | src/runtime/libc_absent.c:87-96 | the value the map holds, and nothing for a bad or unset name |
| Environment.Env.SetEnv | src/runtime/libc_absent.c:262-302 | one map update or no change, with the exact condition for each outcome; only a new name in a table of 128 is refused for room |
| Environment.Env.UnsetEnv | src/runtime/libc_absent.c:304-318 | removes the name from the map; a bad name changes nothing |
| EmuTls.StepKeepsIff | src/runtime/emutls.c:59-141 | a step of any thread keeps indices, lock, keys, arrays and objects consistent if and only if it does not free a thread's only array |
| EmuTls.GoodThroughoutIff | src/runtime/emutls.c:59-141 | over runs: everything stays consistent if and only if no grown array is refused by the key of a thread that had one |
| EmuTls.LossIsFatal | src/runtime/emutls.c:68-80 | after every such refusal the thread's end frees a freed block and leaves its objects allocated for ever |
| EmuTls.RefusedKeyRun | src/runtime/emutls.c:68-80 | a run from the start that ends so |
| EmuTls.IndicesOverRuns | src/runtime/emutls.c:117-126 | over every interleaving and whatever is refused, a control keeps its nonzero index for ever and no two controls share one |
| EmuTls.ObjectsOverRuns | src/runtime/emutls.c:41-140 | different (thread, control) pairs get different, allocated objects; no free is wrong; no object or array is left when no thread has an array |
| EmuTls.SameAnswerAlways | src/runtime/emutls.c:107-141 | until it ends, a thread is told the same address for a control whatever all threads do |
| EmuTls.ArrayStepIff | src/runtime/emutls.c:59-82 | the call gets its array exactly when the slot exists or memory and key are granted; otherwise it returns null |
| EmuTls.ObjectStepIff | src/runtime/emutls.c:128-140 | the call returns the slot's address exactly when the slot was filled or memory is granted; otherwise null, and nothing changes |
| EmuTls.IndexedSkipsTheLock | src/runtime/emutls.c:117-119 | a control that has its index is accessed without the lock |
| EmuTls.AccessIsAnswered | src/runtime/emutls.c:107-141 | from every good state, a call that is refused nothing returns the thread's address for the control after at most its own remaining steps, whatever other threads do |
| EmuTls.GrantedCallReturns | src/runtime/emutls.c:107-141 | over every run: such a call takes at most six steps of its own and returns the address, never null |
| EmuTls.CleanupRight | src/runtime/emutls.c:41-51 | thread cleanup frees exactly that thread's objects and its array, each once |
| EmuTls.ArrayForIndex | src/runtime/emutls.c:59-82 | growth keeps all slots, empties the new ones and sets the count; null exactly when memory or the key refuses, and the key is left on a freed array exactly in one of these cases |
| EmuTls.ThreadCleanup | src/runtime/emutls.c:41-51 | the loop frees slot by slot what the model frees |
| LineLog.Log.constructor | src/runtime/stderr_to_klog.c:32-33 | the buffer starts empty |
| LineLog.Log.KlogChunks | src/runtime/stderr_to_klog.c:39-53 | a buffer goes out as its pieces of 96 |
| LineLog.Log.LineFlush | src/runtime/stderr_to_klog.c:55-60 | flushing sends the buffer and empties it |
| LineLog.Log.LineAppend | src/runtime/stderr_to_klog.c:75-90 | the byte loop computes the model's append |
| LineLog.Conservation | src/runtime/stderr_to_klog.c:39-90 | over every run of writes and flushes, messages followed by the buffer are the bytes written without CR and LF, in order |
| LineLog.CutAt | src/runtime/stderr_to_klog.c:39-53 | piece number i is the text from 96 * i on, whole but for the last |
| LineLog.MessagesAreShaped | src/runtime/stderr_to_klog.c:25-30 | every message has 1 to 96 bytes and no line ending, and the buffer never overflows |
| LineLog.SplitsDoNotMatter | src/runtime/stderr_to_klog.c:75-90 | the state does not depend on how the input was split into calls |
| LineLog.MessagesOfText | src/runtime/stderr_to_klog.c:39-90 | the messages of a text are those of its lines, each cut at 512 and then at 96 |
| LineLog.NothingLostIffNoNul | src/runtime/stderr_to_klog.c:39-90 | over every run of writes and flushes the log shows all that was written but line endings if and only if no NUL was written |
| LineLog.TextShownIffNoNul | src/runtime/stderr_to_klog.c:39-90 | the same of one text |
| LineLog.NulCutsTheLine | src/runtime/stderr_to_klog.c:48-50 | a short line is shown up to its first NUL |
| LineLog.NulIsLost | src/runtime/stderr_to_klog.c:48-50 | one such text |

## Left out

- Pm4.FindChain: lengths within 0x4000 of 2^32 are excluded, because exactly there some streams make the loop run for ever (`LoopEndsIff`); `submit_chain` passes at most 2^30 dwords.
- Pm4.WalkToChain: the same lengths are excluded, for the same reason.
- CivilTime.LocalTime: the sum of seconds and offset is taken as not overflowing 64 bits, where the source's behaviour is undefined; the one-time log line is not modelled.
- BufferTheorems.OwnershipOverRuns: the retention order number is unbounded here, a 64-bit counter in the source.
- EmuTls.ObjectsOverRuns: object contents and alignment are not modelled, and key creation is taken as done; after a loss (`GoodThroughoutIff`) the source reads freed memory, and nothing is claimed.
- CxaGuard.GuardsAreOneTime: atomics are sequentially consistent; weaker orders are not modelled.
- Environment.Env.SetEnv: names and values are strings without NUL, as C strings are; freeing of replaced entries is not modelled.
- The logging of map collisions (`src/winsys/buffers.c:565-580`): it has no effect on the state.
- FenceProtocol: which error number a failed call returns; `FenceOutcomes.CallFailsIff` says when it fails.
- Cache flushes, clocks, sleeps and the contents of packets beyond headers and chain fields.
- Requests on buffers that only read fields back (GEM_OP, wait idle, sizes), buffer lists and syncobjs: lookups in the same kind of table.
- ioctl dispatch, device description, display and loader code, and the forwarding thread API: single branches or calls into code outside the repository.
- The remaining C library stubs and the printf and descriptor side of the log redirection.
