# x86jit, verified

A Dafny model of the hard parts of x86jit, an x86 emulator that translates guest code, and proofs
about it. It has three parts.

**Self-modifying code.** Translated units must agree with guest memory. Stores mark the code pages
they touch; draining those pages drops the units on them and moves an epoch; tier-up and link
publication are let through only while the epoch stands; the dispatcher chains compiled units without
going back to the lookup.

* `CodeState` says what a unit is (the bytes it was lifted from) and what keeps every holder of one
  coherent: the cache, link slots, a vcpu's private probe, compiles in flight.
* `Engine`, `Machine` and `Dispatcher` are the objects and loops themselves, for one vcpu. Guest code
  is an arbitrary sequence of stores and a way out of the unit; lifting is an arbitrary function of
  memory, whose units must hold every byte it takes. `RunInner` is the main theorem: the dispatcher is
  plain execution.
* `CacheInterleavings`, `LinkSlots`, `DirtyHandshake` and `Watermark` are state machines over any
  number of threads, one step for each section that holds a lock or performs one atomic operation.
  `StoreGate` joins the watermark to `CodeState`.
* `Unmapping` and `BackgroundRegions` say exactly when two shortcuts are safe.
* `WatchPages` and `Regions` are index structures that refine plain sets.

**80-bit floating point and the x87 stack.** `Rounding` states correct rounding over the reals
(section 4.3 of IEEE 754), apart from any algorithm. `Float80` is the code; `RoundingPath`, `MulDiv`,
`AddSub`, `Sqrt`, `IntegerConversion`, `Codec`, `Narrowing` and `Comparison` relate the two.
`Operations`, `Denormals` and `ControlWord` say what is left in a register, `Formats` what encodings
stand for. `Instructions`, `Images` and `Fpu` build the stack machine on them, and `Meaning` says what its
instructions come to.

**AES rounds.** `Aes` has the round primitives and the Equivalent Inverse Cipher.

## Where a general claim is false

Each of these has a concrete input and the exact condition under which the claim holds.

* Re-inserting or upgrading a live key with spans that uncover a page breaks tagging:
  `CacheInterleavings.RacingLiftsLoseATag`, and from every state `LostCoverageBreaks`.
* Filling an indirect slot from a probe that is out of step relinks a dropped unit:
  `LinkSlots.StaleProbeRelinks`, `ProbeFillSafeIff`.
* A background region that reaches a page no cached unit covers can be published stale, even if the
  page is tagged: `BackgroundRegions.LoopCanArriveStale`, `RegionSafeIff`.
* Unmapping part of a page, or nothing at address zero, can strand a unit:
  `Unmapping.HalfPageUnmapLosesStores`, `EmptyUnmapStrandsAUnit`, `UnmapCoherentIff`.
* A store spilling into the page stored as the watermark's low bound is not gated:
  `Watermark.SpillMissed`, `SpillGatedIff`.
  In compiled code it strands a unit: `StoreGate.SpillStrandsAUnit`, `GatedStoreNotedIff`.
* Marking the last page of the largest span and then page 0 shuts the watermark's gate:
  `Watermark.LastThenFirstShuts`, `AlwaysGuardedIff`.
* An empty access or region defeats the hint and the guard pages: `Regions.EmptyAccessIsAmbiguous`,
  `HintAgreesIff`, `EmptyRegionOpensAPage`, `RoundedIff`.
* Comparison of numbers of opposite sign or against zero can misreport:
  `Comparison.HalfComparesBelowZero`, `CompareTruthfulIff`.
* Narrowing below the normal range can be off by a factor of two: `Narrowing.NarrowingGoesWrong`,
  `NarrowsCorrectlyIff`.
* Adding a zero does not round: `Operations.AddZeroUnrounded`, `AddZeroCorrectIff`.
* A result below the normal range is truncated in its register: `Operations.HalvedLosesAUnit`,
  `StoredResultCorrectIff`.
  It can be other than the denormal IEEE 754 asks for: `Denormals.HalvedIsNotRoundedUp`,
  `TinyResultOwedIff`.
* A zero sum of operands with opposite signs is plus zero when rounding down, where section 6.3 of
  IEEE 754 asks for minus zero: `AddSub.ZeroSumsRoundingDown`, `ZeroSumSignIff`.
* `fptan` and `fsincos` can be abandoned with `ST(0)` overwritten: `Fpu.AbandonedTangentFromReset`,
  `Fpu.Fpu.ApplyPair`.

Where the code and its comments differ, the code is followed: `fptan`/`fsincos` are not "left as they
were" by an unmasked fault, and the watermark's comment that one compare on a store's first byte is
enough does not cover the page stored as the low bound.

## Model

| member | source | states |
|---|---|---|
| `Dispatcher.Vcpu.RunInner` | x86jit-core/src/vm.rs:996-1391 | for any guest behaviour, any budget and eager, inline or single-block background tier-up, a run is a run of plain execution: every step begins at the address and in the memory that performing the guest's effects one after another leads to, and so does the state it ends in; every unit entered holds exactly the bytes that lifting its address takes, as they are in memory; the charges add up and stay within the budget; it ends with the first exit of the guest's, or for budget when all of it is charged |
| `Dispatcher.Vcpu.Chain` | x86jit-core/src/vm.rs:1175-1387 | following link and indirect slots without the outer loop is plain execution, enters only exact units, stays within the budget and always executes at least one |
| `Dispatcher.Vcpu.Turn` | x86jit-core/src/vm.rs:1009-1175 | one turn of the outer loop is plain execution, keeps coherence and either ends the run or executes something |
| `Dispatcher.Vcpu.Enter` | x86jit-core/src/vm.rs:1131-1139 | guest code runs only from a unit that is complete and up to date; memory afterwards is memory before with its stores performed in order |
| `Dispatcher.Vcpu.Perform` | x86jit-core/src/memory.rs:811-824 | each byte is what the last store to land on it left, or as it was; a store with an unmapped byte does not land |
| `Dispatcher.Vcpu.LeaveUnit` | x86jit-core/src/vm.rs:1206-1387 | the address is the one the way out names, a deferred instruction's stores are performed, and the run is stopped exactly by the exits of the guest's |
| `Dispatcher.ExactIsCurrentLift` | x86jit-core/src/vm.rs:1602-1619 | for a lifter decided by the bytes it takes, a unit entered is the lift of the memory it is entered in |
| `Dispatcher.Vcpu.FollowEdge` | x86jit-core/src/vm.rs:1206-1259 | a taken slot leads to the address the edge names, and to a genuine unit for it that is guarded against every later write |
| `Dispatcher.Vcpu.FollowDirect` | x86jit-core/src/vm.rs:1216-1253 | the slot is filled with the guarded unit of its own target, or no slot changes |
| `Dispatcher.Vcpu.FollowIndirect` | x86jit-core/src/vm.rs:1259-1329 | an indirect miss yields the guarded unit of the computed target, from the probe or by resolving it |
| `Dispatcher.Vcpu.FastGet` | x86jit-core/src/vm.rs:747-754 | a probe hit in step with the epoch is a guarded unit for the current RIP |
| `Dispatcher.Vcpu.Sync` | x86jit-core/src/vm.rs:1018-1026 | after the flush the probe is in step with the epoch and the state still coherent |
| `Dispatcher.Run.Quantum` | x86jit-core/src/vm.rs:1194-1205 | the quantum subtraction never goes below one guest block |
| `Machine.Vm.HandleSmc` | x86jit-core/src/vm.rs:551-572 | draining the dirty pages drops exactly the units on them, clears the links exactly when one went, and leaves a coherent state with nothing pending |
| `Machine.Vm.Resolve` | x86jit-core/src/vm.rs:1430-1595 | the unit returned is for the address asked, cached, guarded and what lifting that address took; on first sight it holds exactly the bytes the lifter spans in present memory and their pages are tagged; it is compiled exactly when it was or has become hot; lifting fails only on first sight; every other unit stays cached; the state stays coherent on every path |
| `Machine.Vm.LiftFirst` | x86jit-core/src/vm.rs:1552-1619 | the unit holds every mapped byte of the block, or of all blocks of a looping region, no other byte, and spans their pages; a looping region is compiled at once, anything else only without tiering |
| `Machine.Vm.TierUp` | x86jit-core/src/vm.rs:1460-1551 | a hot unit is swapped for its compiled form, or left to the background compiler, and is the same unit; with one vcpu the swap is never refused |
| `Machine.Vm.DrainTierUp` | x86jit-core/src/vm.rs:1399-1425 | publishing finished compiles in any order keeps coherence, changes no span and no unit, only tiers |
| `Machine.Vm.InsertLifted` | x86jit-core/src/vm.rs:1602-1619 | the unit lifted from memory as it is enters the cache, guarded, and nothing else changes |
| `Machine.Vm.Unmap` | x86jit-core/src/vm.rs:503-527 | unmapping a range that is mapped, the empty range included, leaves `Unmapping.Unmapped` of the state before; otherwise nothing changes |
| `Engine.Memory.NoteWrite` | x86jit-core/src/memory.rs:811-824 | exactly the tagged pages of the store are appended to the dirty list, and the flag is set if the list is not empty |
| `Engine.Memory.TakeDirtyCode` | x86jit-core/src/memory.rs:930-941 | a set flag hands over the whole list; a clear flag hands over nothing |
| `Engine.TranslationCache.Upgrade` | x86jit-core/src/cache.rs:170-190 | swaps in a unit exactly when no unit was dropped since the snapshot |
| `Engine.TranslationCache.UpgradeRegion` | x86jit-core/src/cache.rs:200-218 | as Upgrade, tagging the pages of every span and forgetting the key's hotness |
| `Engine.TranslationCache.InvalidateOverlapping` | x86jit-core/src/cache.rs:407-450 | drops exactly the overlapping units, clears the range's tags, moves the epoch exactly when something was dropped |
| `Engine.Backend.PublishIfCurrent` | x86jit-core/src/cache.rs:262-270 | a slot is filled exactly when the epoch has not moved since the snapshot |
| `CodeState.StoreKeepsCoherent` | x86jit-core/src/memory.rs:811-824 | any noted store keeps every holder of a unit coherent |
| `CodeState.DropKeepsDraining` | x86jit-core/src/cache.rs:407-450 | dropping one page keeps every unit that is still reachable guarded, whatever pages are still pending |
| `CodeState.InsertKeepsCoherent` | x86jit-core/src/cache.rs:380-392 | caching a unit lifted from memory as it is keeps the state coherent |
| `CodeState.PromoteKeepsCoherent` | x86jit-core/src/cache.rs:170-218 | swapping tiers keeps coherence, spans and tags |
| `CodeState.OverlapIsTouch` | x86jit-core/src/cache.rs:418-426 | the byte-range overlap test on a page agrees with the page range used for tagging |
| `CodeState.GuardedIsFresh` | x86jit-core/src/vm.rs:1178-1193 | with no page pending, a guarded unit's bytes are those in memory |
| `Unmapping.UnmapCoherentIff` | x86jit-core/src/vm.rs:503-527 | unmapping a range, possibly empty, keeps coherence if and only if every live unit on the pages whose tags are cleared overlaps the range |
| `Unmapping.AlignedUnmapIsSafe` | x86jit-core/src/vm.rs:510-522 | whole pages always qualify, and so does an empty range at the start of a page other than the first |
| `Unmapping.EmptyUnmapStrandsAUnit` | x86jit-core/src/vm.rs:510-522 | unmapping nothing at address zero clears the tag of page zero and leaves its unit there |
| `Unmapping.HalfPageUnmapLosesStores` | x86jit-core/src/vm.rs:510-522 | a concrete half-page unmap after which a store to a cached unit goes unnoticed |
| `BackgroundRegions.RegionSafeIff` | x86jit-core/src/vm.rs:1484-1530 | a region submitted to the background compiler, beside any number of others that were watched at their submission, leaves every run of stores, drains, inserts, tier-ups, submissions, publications, links and probe fills coherent if and only if every page it took a byte from is covered by a cached unit; if a covered page is already dirty, tagged or dirty pages are enough |
| `BackgroundRegions.WatchedRegionsSafe` | x86jit-core/src/vm.rs:1399-1551 | with any number of regions in flight, each watched when it was submitted, every run stays coherent and every region arrives current or not at all |
| `BackgroundRegions.DrainExact` | x86jit-core/src/vm.rs:551-572 | a drain leaves the epoch alone if and only if no dirty page is covered, and then changes only tags |
| `BackgroundRegions.PublishCoherentIff` | x86jit-core/src/cache.rs:200-218 | publishing a region over its entry block is coherent if and only if its bytes are current at that moment |
| `BackgroundRegions.LoopCanArriveStale` | x86jit-core/src/vm.rs:1495-1509 | a concrete state: a cached block on page 0 and a loop reaching page 1, which no unit covers; tagged or not, the loop can arrive stale |
| `CacheInterleavings.StepsAgree` | x86jit-core/src/cache.rs:170-450 | each locked section does to keys, spans, tags and epoch what the same operation does for one vcpu |
| `CacheInterleavings.EveryInterleavingConsistent` | x86jit-core/src/cache.rs:170-218 | in every interleaving whose re-spanning steps uncover no page: same keys in both maps, every page of a live span tagged, every upgrade the epoch lets through is of a live unit on covered pages |
| `CacheInterleavings.UpgradeNeverResurrects` | x86jit-core/src/cache.rs:163-190 | a let-through upgrade adds no key and spans only tagged pages; a refused one changes nothing |
| `CacheInterleavings.LostCoverageBreaks` | x86jit-core/src/vm.rs:1592-1618 | from any consistent state, a step that uncovers a page extends to a run that leaves a live unit on an untagged page |
| `CacheInterleavings.RacingLiftsLoseATag` | x86jit-core/src/vm.rs:1592-1618 | such a run from nothing cached: a second lift of the address uncovers page 1, and the first's upgrade leaves a live unit on it untagged |
| `CacheInterleavings.StableLiftsConsistent` | x86jit-core/src/cache.rs:380-450 | if every lift of an address finds the same spans, every interleaving of single blocks is consistent, their background publications included |
| `CacheInterleavings.WideningUnitsConsistent` | x86jit-core/src/cache.rs:200-218 | if every re-spanned key keeps its own pages, as it does when a region replaces its first block, every interleaving is consistent |
| `CacheInterleavings.InitiallyConsistent` | x86jit-core/src/cache.rs:111-128 | an empty cache with every vcpu idle is consistent |
| `LinkSlots.EveryRunSafe` | x86jit-core/src/vm.rs:1216-1253 | across any number of vcpus, with indirect fills from the probe only while it is in step, a filled slot holds a unit not dropped since, unless some vcpu has yet to clear that slot |
| `LinkSlots.QuietSlotsAreLive` | x86jit-core/src/vm.rs:562-571 | once nobody is between a drop and its clearing, no slot holds a dropped unit |
| `LinkSlots.ProbeFillSafeIff` | x86jit-core/src/vm.rs:1261-1276 | a vcpu's fill of an indirect slot from its probe leaves every safe system safe if and only if, when the epoch lets it through, the probe is in step with the snapshot |
| `LinkSlots.FilledSlotSafeIff` | x86jit-core/src/vm.rs:1261-1276 | in any safe system, a filled slot is safe if and only if the unit was not dropped or some vcpu has yet to clear the slot |
| `LinkSlots.InitiallySafe` | x86jit-core/src/vm.rs:414-428 | idle vcpus with nothing cached are safe |
| `LinkSlots.StaleProbeRelinks` | x86jit-core/src/vm.rs:1259-1276 | a run from nothing, with a probe out of step, that leaves a dropped unit in a slot nobody will clear |
| `DirtyHandshake.NoPageLost` | x86jit-core/src/memory.rs:811-824 | in every interleaving of writers and drainers, pages pushed equal pages taken plus pending, and a non-empty list has its flag set or a thread on its way |
| `DirtyHandshake.InitiallyAccounted` | x86jit-core/src/memory.rs:624-625 | an empty list accounts for every page |
| `DirtyHandshake.QuietDrainTakesAll` | x86jit-core/src/memory.rs:930-941 | once all threads are idle, one drain takes everything pending |
| `Watermark.TaggedPagesPassGate` | x86jit-core/src/memory.rs:687-793 | over any interleaving of markers of any page a tracked span contains and of tag clears, the gate only grows if and only if no widening wraps, and then it admits every tagged page whose marker has finished |
| `Watermark.WidenGrowsIff` | x86jit-core/src/memory.rs:718-759 | one widening admits the page and everything admitted before if and only if it is not down to page 0 from a range that ends with the last page; the word stays within its halves either way |
| `Watermark.AlwaysGuardedIff` | x86jit-core/src/memory.rs:337-337 | however threads mark a set of pages, starting from nothing, the gate guards them if and only if page 0 and page 2^32-2 are not both in the set |
| `Watermark.LastThenFirstShuts` | x86jit-core/src/memory.rs:718-759 | a run that marks page 2^32-2, then page 0: both are tagged and nobody is marking, yet the gate admits no page |
| `Watermark.RemarkingIsIdempotent` | x86jit-core/src/memory.rs:721-736 | re-marking an admitted page leaves the word unchanged |
| `Watermark.SpillGatedIff` | x86jit-core/src/memory.rs:711-717 | a store starting one page below a tagged page is gated if and only if that page is not the stored low bound |
| `Watermark.SpillMissed` | x86jit-core/src/memory.rs:734-736 | a run that marks pages 5 then 4: both tagged and nobody marking, yet a store spilling from page 3 into page 4 is not gated |
| `Watermark.InitiallyGuards` | x86jit-core/src/memory.rs:623-623 | with nothing tagged an empty word is a gate |
| `StoreGate.GatedStoreNotedIff` | x86jit-core/src/memory.rs:711-717 | a store of at most 64 bytes that consults the watermark on its first byte is noted on all its tagged pages if and only if it does not spill from below into a tagged page, not yet dirty, that is the stored low bound |
| `StoreGate.GatedStoreWrites` | x86jit-core/src/memory.rs:711-717 | noted or not, the store writes its mapped bytes and makes pending only tagged pages it touches |
| `StoreGate.GatedStoreCoherent` | x86jit-core/src/memory.rs:762-789 | every other such store keeps every unit coherent with memory |
| `StoreGate.SpillStrandsAUnit` | x86jit-core/src/memory.rs:711-717 | a concrete unit, marks and two-byte store after which the unit is stale and nothing is pending |
| `WatchPages.Watcher.Watch` | x86jit-core/src/memory.rs:444-459 | the watched set gains the page; count, scan list and bitmaps stay exact |
| `WatchPages.Watcher.Unwatch` | x86jit-core/src/memory.rs:461-475 | the page leaves both sets |
| `WatchPages.Watcher.NoteWrite` | x86jit-core/src/memory.rs:811-824 | exactly the watched pages of the store become dirty |
| `WatchPages.Watcher.TakeDirty` | x86jit-core/src/memory.rs:479-494 | returns exactly the dirty pages, ascending, and empties them |
| `WatchPages.Watcher.TakeDirtyRanges` | x86jit-core/src/memory.rs:909-926 | returns exactly the dirty pages as whole-page ranges, ascending with a gap between any two, and empties them |
| `WatchPages.Watcher.WatchRange` | x86jit-core/src/memory.rs:889-894 | watches exactly the pages of the range the table reaches |
| `WatchPages.Watcher.UnwatchRange` | x86jit-core/src/memory.rs:898-903 | stops watching exactly the pages of the range |
| `WatchPages.Coalesce` | x86jit-core/src/memory.rs:913-925 | consecutive pages merge into maximal disjoint ranges covering exactly them |
| `WatchPages.ScanWord` | x86jit-core/src/memory.rs:487-491 | the bit scan yields the set bits of a word, lowest first |
| `WatchPages.AndMinus1ClearsLowest` | x86jit-core/src/memory.rs:488-491 | anding a word with itself less one clears its lowest set bit |
| `Regions.Table.Map` | x86jit-core/src/memory.rs:1055-1098 | accepts a region exactly when it is in bounds and overlaps none; regions stay disjoint and host pages open exactly where regions round to |
| `Regions.Table.Unmap` | x86jit-core/src/memory.rs:1179-1194 | removes the exact region and closes exactly the pages no other region shares |
| `Regions.Table.RegionAt` | x86jit-core/src/memory.rs:1258-1278 | the lookup is the hinted region if that contains the access and the first that does otherwise; for an access that holds a byte it is what a scan from the front finds |
| `Regions.Table.ClosePages` | x86jit-core/src/memory.rs:1202-1238 | closes the pages of a rounding except those a surviving region shares |
| `Regions.OpenPagesIntersect` | x86jit-core/src/memory.rs:1196-1238 | with no empty region, a host page is open if and only if some region has a byte on it |
| `Regions.RoundedIff` | x86jit-core/src/memory.rs:1214-1219 | rounding outward reaches the pages a region has a byte on, and for an empty region the page strictly around it |
| `Regions.HintAgrees` | x86jit-core/src/memory.rs:1265-1270 | for an access that holds a byte, any region containing it is the one the scan finds |
| `Regions.HintAgreesIff` | x86jit-core/src/memory.rs:1258-1278 | a hint that hits is the region the scan stops at if and only if the access holds a byte or no earlier region contains its address, ends included |
| `Regions.EmptyAccessIsAmbiguous` | x86jit-core/src/memory.rs:1258-1278 | an empty access on a boundary lies in two regions |
| `Regions.EmptyRegionOpensAPage` | x86jit-core/src/memory.rs:1214-1222 | an empty region inside a page opens it although no byte is mapped |
| `Rounding.RoundSigned` | x86jit-core/src/f80.rs:1135-1149 | incrementing the truncated significand exactly when the decision says so is correct rounding in every direction, and inexact exactly when the value is not representable |
| `Rounding.CorrectRoundingUnique` | x86jit-core/src/f80.rs:1128-1149 | correct rounding determines its result |
| `RoundingPath.NormalizeRoundCorrect` | x86jit-core/src/f80.rs:1165-1233 | the rounding path delivers the correct rounding of an integer value or one with a known fraction above it, at every exponent, with PE, UE and OE as owed |
| `RoundingPath.JammedRoundCorrect` | x86jit-core/src/f80.rs:1165-1233 | a jammed low bit two places below the kept field never changes the decision |
| `RoundingPath.FinishDelivers` | x86jit-core/src/f80.rs:1281-1332 | range checks on the exponent deliver the overflow response, the flush to zero, and PE and UE for values between |
| `RoundingPath.RoundFieldValue` | x86jit-core/src/f80.rs:1212-1233 | the carry and the final shift leave the rounded value unchanged |
| `RoundingPath.DiscardBrackets` | x86jit-core/src/f80.rs:1179-1210 | the kept field and the comparison with half a unit keep all that rounding needs |
| `MulDiv.MulCorrect` | x86jit-core/src/f80.rs:554-577 | the product of any normals under any control is correctly rounded, exceptions included |
| `MulDiv.DivCorrect` | x86jit-core/src/f80.rs:584-619 | the quotient of any normals under any control is correctly rounded, exceptions included |
| `MulDiv.QuotientPosition` | x86jit-core/src/f80.rs:603-617 | the integer quotient and remainder place the exact quotient against half a unit |
| `AddSub.AddSubCorrect` | x86jit-core/src/f80.rs:1334-1411 | the sum or difference of any normals at any exponent distance is correctly rounded; an exact zero is plus zero with no exception |
| `AddSub.ZeroSumSignIff` | x86jit-core/src/f80.rs:1358-1411 | a zero sum of two zeros or of cancelling normals is exact and has the sign section 6.3 of IEEE 754 asks for if and only if the operands have the same sign or the direction is not down |
| `AddSub.ZeroSumsRoundingDown` | x86jit-core/src/f80.rs:1358-1411 | rounding down, 1 - 1 and (+0) + (-0) are plus zero |
| `AddSub.AlignStands` | x86jit-core/src/f80.rs:1363-1381 | the aligned word stands for its operand exactly, or jammed and far below the top |
| `AddSub.CarryIsEven` | x86jit-core/src/f80.rs:1382-1394 | a carry out of 128 bits happens only when halving is exact |
| `Sqrt.Isqrt128` | x86jit-core/src/f80.rs:1418-1435 | for every 128-bit input the Newton loop ends, no step overflows, and root and remainder are exact |
| `Sqrt.SqrtCtl` | x86jit-core/src/f80.rs:628-667 | the root of a normal is correctly rounded in all modes and widths, judged by squares of candidates and midpoints so that no root is assumed; negative, zero, infinite and NaN operands as specified |
| `Sqrt.ChooseRoot` | x86jit-core/src/f80.rs:1128-1149 | between two neighbours, the increment decision selects the one the direction asks for, from comparisons of squares alone |
| `Sqrt.RootPosition` | x86jit-core/src/f80.rs:651-661 | the remainder exceeds the root exactly when the real root is above the midpoint |
| `IntegerConversion.ToI64Correct` | x86jit-core/src/f80.rs:491-528 | the conversion of a zero or normal is the mathematically rounded integer when it fits in 64 bits; every other is the indefinite, carry to 2^63, infinities and NaNs included |
| `IntegerConversion.RoundedIntegerExists` | x86jit-core/src/f80.rs:491-528 | every normal has a rounded integer |
| `IntegerConversion.RoundsToIntegerUnique` | x86jit-core/src/f80.rs:1079-1087 | rounding to an integer has one outcome |
| `IntegerConversion.FromI64RoundTrip` | x86jit-core/src/f80.rs:473-528 | an integer converts exactly, and converting back gives it in every direction |
| `IntegerConversion.RoundIntegerPart` | x86jit-core/src/f80.rs:1079-1087 | the increment decision selects the rounded integer, ties to even, for either sign |
| `Codec.LoadThenStore` | x86jit-core/src/f80.rs:275-388 | re-encoding ten decoded bytes gives them back, except a pseudo-denormal, whose biased exponent becomes 1 |
| `Codec.PseudoDenormalSameValue` | x86jit-core/src/f80.rs:311-326 | a pseudo-denormal and its re-encoding decode to the same number |
| `Codec.StoreThenLoad` | x86jit-core/src/f80.rs:347-388 | an in-range number survives a store; above the range it becomes an infinity, below it its magnitude is truncated to a denormal unit |
| `Codec.StoreIsExact` | x86jit-core/src/f80.rs:363-381 | a number survives a store if and only if it is not above the range and is in the normal range or on the denormal grid |
| `Codec.WidenThenNarrow` | x86jit-core/src/f80.rs:392-469 | narrowing a widened double gives it back, except a signalling NaN, which comes back quiet |
| `Formats.ExtendedMeans` | x86jit-core/src/f80.rs:275-345 | which ten-byte encodings are zeros, numbers, infinities and NaNs, and the value of the numbers |
| `Formats.RangeOfFormat` | x86jit-core/src/f80.rs:275-345 | the normal encodings are exactly of the exponent range the rounding path keeps to |
| `Formats.DoubleMeans` | x86jit-core/src/f80.rs:392-429 | which doubles are zeros, numbers, infinities and NaNs, and the value of the numbers |
| `Formats.SpecialsNarrow` | x86jit-core/src/f80.rs:432-444 | narrowing keeps zeros, infinities and the upper bits of quiet NaNs; an unsupported operand becomes the indefinite |
| `Codec.WordsRoundTrip` | x86jit-core/src/f80.rs:275-278 | ten bytes are given back by the two words they hold |
| `Codec.BytesRoundTrip` | x86jit-core/src/f80.rs:347-388 | and two words by the ten bytes they are stored in |
| `Narrowing.NarrowsCorrectlyIff` | x86jit-core/src/f80.rs:432-469 | narrowing a normal delivers the nearest double, ties to even, infinity from 2^1024, if and only if the input is outside an explicit family of carries below the normal range and values above half the least double |
| `Narrowing.NarrowingGoesWrong` | x86jit-core/src/f80.rs:448-463 | two concrete inputs of that family |
| `Narrowing.RoundOffIsNearest` | x86jit-core/src/f80.rs:1105-1119 | rounding off the low bits selects the nearest double, normal or subnormal |
| `Comparison.CompareTruthfulIff` | x86jit-core/src/f80.rs:689-703 | the flags report the order of two finite numbers if and only if an explicit condition on exponents and signs holds |
| `Comparison.HalfComparesBelowZero` | x86jit-core/src/f80.rs:1057-1069 | one half compares below zero and minus one half equal to one |
| `Comparison.SpecialsOrdered` | x86jit-core/src/f80.rs:689-703 | infinities are ordered against every finite number in range; a pair is unordered if and only if one is a NaN |
| `ControlWord.ControlMeaning` | x86jit-core/src/f80.rs:50-82 | the control word of number n rounds down, up, toward zero or to nearest as n / 1024 % 4 is 1, 2, 3 or 0, to 24, 53 or 64 bits as n / 256 % 4 is 0, 2 or other; bit 4 masks underflow |
| `ControlWord.RoundedResult` | x86jit-core/src/f80.rs:50-82 | every exact result has one rounding that the control word asks for |
| `ControlWord.RegisterRoundsAs` | x86jit-core/src/f80.rs:347-388 | the register left by an arithmetic instruction on normals holds that rounding if and only if it can |
| `ControlWord.UnderflowReported` | x86jit-core/src/f80.rs:1281-1332 | underflow is reported if and only if that rounding is below the normal range and, if bit 4 masks it, inexact |
| `ControlWord.IntegerRoundsAs` | x86jit-core/src/f80.rs:491-528 | converting a finite number gives the integer the control word's direction asks for, or the indefinite |
| `Operations.ApplyCorrect` | x86jit-core/src/x87.rs:711-726 | every arithmetic instruction on normals, reversed forms included, delivers the correct rounding of the exact result |
| `Operations.StoredResultCorrectIff` | x86jit-core/src/f80.rs:347-388 | the register, decoded after any arithmetic instruction on normals, holds the correct rounding with unbounded exponent if and only if that does not overflow and is in the normal range or on the denormal grid |
| `Denormals.TinyResultOwedIff` | x86jit-core/src/f80.rs:363-381 | at full width, an exact result below the normal range is left in the register as IEEE 754 asks, rounded once to the denormal grid, if and only if the direction truncates it, its 64-bit rounding is on the grid, or it rounds to nearest from the lower half of its cell |
| `Denormals.HalvedIsNotRoundedUp` | x86jit-core/src/f80.rs:363-381 | a concrete product, rounded up, left below the denormal owed |
| `Operations.HalvedLosesAUnit` | x86jit-core/src/f80.rs:363-381 | a concrete exact product that the register truncates |
| `Operations.ApplyWellFormed` | x86jit-core/src/f80.rs:540-619 | every arithmetic result can be encoded again |
| `Operations.NanSelected` | x86jit-core/src/f80.rs:241-261 | of two NaN operands the quiet one, then the one with the larger significand, then the left one is delivered, made quiet |
| `Operations.ProductOfGrades` | x86jit-core/src/f80.rs:554-577 | a product with an infinity or a zero is an infinity or a zero of the product's sign, and invalid for one of each |
| `Operations.QuotientOfGrades` | x86jit-core/src/f80.rs:584-619 | a quotient with an infinity or a zero likewise; a number by a zero reports division by zero, infinities or zeros by each other are invalid |
| `Operations.SumWithInfinity` | x86jit-core/src/f80.rs:1345-1357 | an infinity decides a sum, and opposite ones are invalid |
| `Operations.NanPropagates` | x86jit-core/src/f80.rs:200-272 | a NaN or unsupported operand makes every operation deliver a quiet NaN, with invalid exactly for a signalling or unsupported one |
| `Operations.AddZeroCorrectIff` | x86jit-core/src/f80.rs:1358-1360 | adding a zero, on either side, returns the other operand as it is, negated if subtracted, which is correct rounding if and only if it fits the selected width |
| `Operations.AddZeroUnrounded` | x86jit-core/src/f80.rs:1358-1360 | under 24-bit precision a 64-bit significand survives the addition of zero |
| `Fpu.Fpu.Exec` | x86jit-core/src/x87.rs:758-1294 | for every instruction and state: a completed one did what `Instructions.Does` says of its kind, and `Meaning` says what that is; a memory fault leaves everything but the status word alone; so does abandoning an instruction, except that one which writes before it pushes has its first result in place; memory changes only in the stated footprint; flags are sticky; with all exceptions masked nothing is abandoned |
| `Meaning.RegArithMeans` | x86jit-core/src/x87.rs:1008-1083 | after a register form the destination holds the exact result of the operands' values, in the instruction's order, rounded as the control word asks, if and only if a register can hold that |
| `Meaning.MemArithMeans` | x86jit-core/src/x87.rs:926-1001 | and after a memory form |
| `Meaning.IntegerLoadMeans` | x86jit-core/src/x87.rs:769-835 | `fild` pushes exactly the two's complement integer in memory |
| `Meaning.IntegerStoreMeans` | x86jit-core/src/x87.rs:882-925 | `fistp` stores the number rounded to an integer in the direction the control word asks for, or toward zero in the truncating form; what does not fit leaves low bytes |
| `Meaning.DoubleLoadMeans` | x86jit-core/src/x87.rs:769-835 | `fld` of a double pushes its value |
| `Meaning.DenormalDouble` | x86jit-core/src/x87.rs:632-645 | a double counts as a denormal operand if and only if it is nonzero and below the least normal double |
| `Meaning.DenormalSingle` | x86jit-core/src/x87.rs:632-645 | and a single if and only if its exponent field is zero and its fraction is not |
| `Meaning.PushesMean` | x86jit-core/src/x87.rs:1002-1031 | `fld1` leaves one, `fldz` plus zero, `fld ST(i)` a copy; the others move down |
| `Meaning.SignsMean` | x86jit-core/src/x87.rs:1147-1154 | `fchs` leaves the negation and `fabs` the magnitude |
| `Meaning.MovesMean` | x86jit-core/src/x87.rs:1032-1088 | `fxch` exchanges and `fst` copies what the registers read as |
| `Meaning.PairsMean` | x86jit-core/src/x87.rs:1239-1257 | `fptan` leaves the tangent under a one, `fsincos` the sine under the cosine |
| `Meaning.DomainMeans` | x86jit-core/src/x87.rs:233-239 | argument reduction takes a number if and only if it is below 2^63 |
| `Meaning.RaisedMeans` | x86jit-core/src/x87.rs:1008-1083 | exactly the operation's exceptions are raised, and the denormal one for such an operand |
| `Meaning.FootprintMeans` | x86jit-core/src/x87.rs:738-757 | a completed store wrote exactly the bytes of its footprint |
| `Meaning.WordStoresMean` | x86jit-core/src/x87.rs:523-540 | `fnstcw` and `fnstsw` store the numbers of the words, low byte first, with TOP in bits 13:11 |
| `Meaning.ControlLoadMeans` | x86jit-core/src/x87.rs:1155-1160 | `fldcw` loads the word in memory, bit 6 set and bits 7 and 15:13 clear |
| `Meaning.EnvironmentLayout` | x86jit-core/src/x87.rs:504-522 | the place of every field in the 28 bytes `fnstenv` stores |
| `Meaning.EnvironmentFields` | x86jit-core/src/x87.rs:561-580 | and what `fldenv` reads from each |
| `Meaning.SaveAreaLayout` | x86jit-core/src/x87.rs:348-403 | the place of every field in the 512 bytes `fxsave` stores, the stack from ST(0) on |
| `Fpu.Fpu.ApplyPair` | x86jit-core/src/x87.rs:1239-1257 | abandoned exactly on an unmasked stack fault of the operand or of the push, and clean exactly when the operand was empty; otherwise the first result is already written; completed, both results are in place, or nothing changed beyond the argument's domain |
| `Fpu.AbandonedTangent` | x86jit-core/src/x87.rs:1239-1257 | on a stack full of ones with invalid unmasked, `fptan` is abandoned and leaves in `ST(0)` a tangent other than one |
| `Fpu.AbandonedTangentFromReset` | x86jit-core/src/x87.rs:1239-1257 | such a stack is reached from reset by `fldcw` and eight `fld1` |
| `Fpu.Fpu.Raise` | x86jit-core/src/x87.rs:602-615 | flags only accumulate; the instruction is abandoned exactly when something was raised and some set flag is unmasked, and then ES and B are set |
| `Fpu.Fpu.StackFault` | x86jit-core/src/x87.rs:262-317 | overflow and underflow set the same flags and differ in C1 |
| `Fpu.Fpu.PushRaw` | x86jit-core/src/x87.rs:262-280 | pushes, or delivers the indefinite onto a register in use, or is abandoned with the stack as it was |
| `Fpu.Fpu.Pop` | x86jit-core/src/x87.rs:282-289 | tags the top empty and moves TOP, leaving the bytes |
| `Fpu.Fpu.Operand` | x86jit-core/src/x87.rs:306-317 | reads a register, an empty one as the indefinite or not at all |
| `Fpu.Fpu.RegArithmetic` | x86jit-core/src/x87.rs:1008-1083 | the destination register receives the operation's result on the right operands, popped if asked; or nothing changes but the status word; with both operands in use exactly the operation's exceptions and a denormal operand's are recorded, and it is abandoned exactly when they leave a flag unmasked |
| `Fpu.Fpu.MemArithmetic` | x86jit-core/src/x87.rs:926-1001 | as RegArithmetic with the decoded memory operand |
| `Fpu.Fpu.LoadFormat` | x86jit-core/src/x87.rs:769-835 | pushes the number the memory operand decodes to; with room on the stack the denormal exception is recorded exactly for a denormal operand, and the load abandoned exactly when that leaves a flag unmasked |
| `Fpu.Fpu.StoreFloat` | x86jit-core/src/x87.rs:836-853 | stores the narrowed top of the stack and pops if asked |
| `Fpu.Fpu.StoreInt` | x86jit-core/src/x87.rs:882-925 | stores the low bytes of the rounded integer and pops |
| `Fpu.Fpu.StoreRaw` | x86jit-core/src/x87.rs:854-881 | stores the register's ten bytes verbatim |
| `Fpu.Fpu.Exchange` | x86jit-core/src/x87.rs:1084-1088 | swaps two registers and tags both in use |
| `Fpu.Fpu.CompareInt` | x86jit-core/src/x87.rs:1117-1146 | the condition codes are those of the comparison with the integer operand; invalid is recorded exactly when it is unordered, and abandons it when that leaves a flag unmasked |
| `Fpu.Fpu.StoreEnv` | x86jit-core/src/x87.rs:1180-1188 | stores the environment image, then masks every exception |
| `Fpu.Fpu.LoadEnv` | x86jit-core/src/x87.rs:1189-1195 | loads the environment and leaves the data registers alone |
| `Fpu.Fpu.ExecFxstate` | x86jit-core/src/x87.rs:348-403 | saves the image of the state unchanged, or restores the state from an image; a fault leaves everything alone |
| `Fpu.Fpu.BuildSaveArea` | x86jit-core/src/x87.rs:380-397 | the loops build the image field by field |
| `Fpu.Fpu.LoadSti` | x86jit-core/src/x87.rs:1002-1005 | pushes a copy of a register |
| `Fpu.Fpu.CopyToSti` | x86jit-core/src/x87.rs:1032-1039 | copies the top into a register, popped if asked |
| `Fpu.Fpu.CompareRegs` | x86jit-core/src/x87.rs:1089-1101 | sets ZF, PF and CF to the comparison, clears OF, SF and AF and pops if asked; abandoned exactly on an unmasked stack fault |
| `Fpu.Fpu.ChangeSign` | x86jit-core/src/x87.rs:1147-1154 | changes the sign alone |
| `Fpu.Fpu.LoadControl` | x86jit-core/src/x87.rs:1155-1160 | loads the control word, if it is mapped, with its reserved bits as hardware leaves them |
| `Fpu.Fpu.ClearExceptions` | x86jit-core/src/x87.rs:1209-1221 | clears the flags, ES, C0 and B and nothing else |
| `Fpu.Fpu.Reset` | x86jit-core/src/x87.rs:1196-1208 | the control word is 0x37F, all registers are empty, status word and environment tail clear |
| `Fpu.Fpu.ApplyBinary` | x86jit-core/src/x87.rs:1258-1290 | replaces ST(1) by the result of the two operands in the instruction's order, and pops |
| `Images.EnvironmentRoundTrip` | x86jit-core/src/x87.rs:504-580 | loading a stored environment gives back control word, status word, TOP, empty tags and the tail except its last two bytes |
| `Fpu.TagClassifies` | x86jit-core/src/x87.rs:466-485 | the tag of a register in use is zero, valid or special as its bytes decode |
| `Images.SaveAreaRoundTrip` | x86jit-core/src/x87.rs:348-403 | restoring a saved area gives back control and status words, TOP, tags, all eight rotated registers and XMM0-15 |
| `Images.TagRoundTrip` | x86jit-core/src/x87.rs:466-485 | only the empty tags survive the tag word, and they do |
| `Aes.CipherUndone` | x86jit-core/src/aes.rs:153-179 | for any number of rounds and any keys, decrypting with transformed keys in reverse undoes encryption (section 5.3.5 of FIPS 197) |
| `Aes.RoundUndone` | x86jit-core/src/aes.rs:153-168 | one decryption round under the transformed key undoes one encryption round |
| `Aes.MixColumnsUndone` | x86jit-core/src/aes.rs:126-150 | InvMixColumns undoes MixColumns |
| `Aes.InvMixColumnsLinear` | x86jit-core/src/aes.rs:139-150 | InvMixColumns distributes over the exclusive or |
| `Aes.ColumnRestored` | x86jit-core/src/aes.rs:126-150 | each byte of a mixed column is restored |
| `Aes.SboxInverse` | x86jit-core/src/aes.rs:12-50 | the inverse table undoes the table on every byte |
| `Aes.SboxIsAffineInverse` | x86jit-core/src/aes.rs:12-29 | every table entry is the affine map of the multiplicative inverse (section 5.1.1 of FIPS 197) |
| `Aes.RowsRotate` | x86jit-core/src/aes.rs:53-55 | row r is rotated by r columns (section 5.1.2 of FIPS 197), and back |
| `Aes.MixIsPolynomial` | x86jit-core/src/aes.rs:126-137 | MixColumns multiplies a column by {03}x^3 + {01}x^2 + {01}x + {02} modulo x^4 + 1 (section 5.1.3) |
| `Aes.InvMixIsPolynomial` | x86jit-core/src/aes.rs:139-150 | InvMixColumns by {0b}x^3 + {0d}x^2 + {09}x + {0e} (section 5.3.3) |
| `Aes.RoundBytes` | x86jit-core/src/aes.rs:153-162 | every byte of an encryption round, from the bytes of its state and key by row and column |
| `Aes.InvRoundBytes` | x86jit-core/src/aes.rs:165-174 | and of a decryption round |
| `Aes.ShiftRowsUndone` | x86jit-core/src/aes.rs:110-124 | the inverse permutation undoes the permutation |
| `Aes.Gmul` | x86jit-core/src/aes.rs:82-92 | the shift-and-add loop computes the polynomial product |
| `Aes.ProductLinear` | x86jit-core/src/aes.rs:82-92 | the product is additive in its first factor |
| `Aes.ProductOfMultipliers` | x86jit-core/src/aes.rs:82-92 | and in its second |
| `Aes.ComputeMixColumns` | x86jit-core/src/aes.rs:126-137 | the loop computes MixColumns |
| `Aes.ComputeInvMixColumns` | x86jit-core/src/aes.rs:139-150 | the loop, over the multiplying loop, computes InvMixColumns |
| `Aes.ComputeRound` | x86jit-core/src/aes.rs:153-162 | the filled blocks compose to the encryption rounds |
| `Aes.ComputeInvRound` | x86jit-core/src/aes.rs:165-174 | the filled blocks compose to the decryption rounds |

## Left out

- Dispatcher.Vcpu.RunInner: excludes region-forming backends with background tier-up, because coherence then fails in general; `BackgroundRegions.RegionSafeIff` says exactly when it does not.
- Dispatcher.Vcpu.Chain: the same exclusion.
- Dispatcher.Vcpu.Turn: the same exclusion.
- Dispatcher.Vcpu.FollowEdge: the same exclusion.
- Dispatcher.Vcpu.FollowDirect: the same exclusion.
- Dispatcher.Vcpu.FollowIndirect: the same exclusion.
- Machine.Vm.Resolve: the same exclusion.
- Machine.Vm.TierUp: the same exclusion, and with it the higher threshold of a region candidate.
- CacheInterleavings.EveryInterleavingConsistent: leaves out steps that uncover a page, because consistency then fails; `LostCoverageBreaks` says so of every such step.
- LinkSlots.EveryRunSafe: leaves out fills from a probe out of step, because safety then fails; `ProbeFillSafeIff` says exactly when.
- Denormals.TinyResultOwedIff: speaks of full width; under a narrower precision control a result below the normal range is compared with unbounded rounding only.
- Fpu.Fpu.Exec: the transcendentals, `fprem` and the 32-bit float conversions are arbitrary functions.
- RoundingPath.NormalizeRoundCorrect: a value with a fraction must fill the kept field, as every quotient and root does; shorter ones would lose the fraction and are never passed.
- Machine code generation and raw host pointers: a compiled unit is its effect on memory and its way out.
- Dispatcher.Vcpu.Enter: takes every store of a unit as noted, so `RunInner` is about stores the inlined gate does not miss; `StoreGate.GatedStoreNotedIff` says exactly which it misses.
- Lifting and interpretation of guest instructions: lifting is an arbitrary function of memory, execution an arbitrary sequence of effects, each with its stores and its way out; that compiled code has the effects of the code it was lifted from is not modelled.
- Weak memory orderings and torn accesses: atomic operations are single steps in one order.
- 64-bit saturation of addresses at the top of the address space: addresses are unbounded.
- Hit, miss, hotness-decision and other counters, and the region decision cache: they affect speed only.
- Real-mode segmentation, interrupt injection and port input: one flat mode is modelled; a deferred instruction is a step with arbitrary stores.
- The 128-bit register packing of an AES state: a state is its sixteen bytes. Key generation assistance is left out.
- Machine words in `WatchPages`, `Images` and `Fpu` are their bits, and bytes are integers below 256.
- The pending `#MF` trap at the head of the next waiting instruction: the ES flag it tests is modelled, the trap is not.
- `sha.rs`, `pclmul.rs`, `gfni.rs`, feature tables, disassembly, loaders and benchmarks: table-driven or bit-wise code with no state, apart from the three concerns above.
