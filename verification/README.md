# Relm in Dafny

Relm is a hypervisor written as a Linux kernel module. This project models eight of its self-contained pieces
and proves what they promise, over every input, every run and every pattern of failures that the code can meet.

| piece | files | main theorems |
|---|---|---|
| Arm stage-2 page tables | `Stage2Tables`, `Stage2Refinement`, `Stage2Runs`, `Stage2Ram`, `Stage2Range`, `Stage2Teardown`, `Stage2Context` on descriptors; `Stage2Bits`, `Stage2Format`, `Stage2Words`, `Stage2WordRuns`, `Stage2WordRam`, `Stage2WordRange` on 64-bit words in host memory | tables of words decode at every step to a heap of descriptors, which refines a flat IPA-to-PA map over every run; the two RAM mappers agree and leave exactly the MMIO windows unmapped; what a range call does to every translation, failed or not; statistics and table pages are exact unless granularities are mixed; teardown frees each page once |
| x86 instruction decoder | `InsnTables`, `InsnDecoder`, `InsnProofs`, `InsnCut`, `InsnTheorems`, `InsnOperands`, `InsnAccounts`, `InsnRetry`, `InsnWitness`, `InsnObject` | the decoded fields put together again are the instruction; encoded operands are read back; cutting or extending the buffer; getters in any order, also after failures |
| guest memory and software MMU | `GuestMemory`, `GuestCopy`, `GuestMmu`, `GuestWalks`, `GuestVirtCopy`, `GuestPageTables` | chunked copies refine flat byte memory; virtual copies are byte-wise translation; the boot page tables are an identity map for the independent walker |
| CR3 target cache | `Cr3Policy`, `Cr3Cache`, `Cr3Effect`, `Cr3Witness`, `Cr3CacheObject` | promoted set = VMCS target set in every run; the policy is a top-four ranking; eviction is safe |
| virtual local APIC | `Apic`, `ApicProofs`, `ApicEoi`, `ApicTimer`, `ApicSystem`, `ApicEffects`, `ApicObject` | the virtual-APIC page always mirrors the registers, for any number of vCPUs; EOIs drain ISR from the top; IPI fan-out is exact; the timer formula counts as promised |
| fw_cfg device | `FwCfg`, `FwCfgProofs`, `FwCfgFiles`, `FwCfgDevice` | registered files arrive in the guest, listed in order and byte for byte |
| virtio-mmio registers | `Virtio`, `VirtioObject` | a ready queue has earned it since the last reset, by a QueueReady write or a STATUS write and by nothing else |
| MMIO window registry | `MmioWindows` | windows never share an address with each other or with RAM |

`Arithmetic` holds the division and counting lemmas several pieces share.

Each piece has the operations as functions over a record of its state; the theorems are about those. Where the
code works in place, a class (`Context`, `Memory`, `ShadowCache`, `VirtApic`, `Device`, `MmioDevice`, `Decoder`,
`Registry`) carries the source's loops and assignments, and each of its methods is proved equal to the function.
What the code cannot decide itself is an input: page allocation in stage 2 is a list of results that may fail
anywhere, VMWRITE results are a list of booleans, clock readings, `kmalloc` success, device callbacks and the
generated opcode tables are parameters.

## What the proofs turned up

Each item has a lemma at a concrete input, or an exact condition that names the inputs itself, and one that says
exactly when it happens.

- Stage 2, leaf flags: `s2_map` tests only the READ bit of the flags and never applies S2_LEAF_FLAGS_MASK. Flags 0x42 turn a
  2 MiB block into a table at the guest's own page, flags 0x5040 move a page (`Stage2WordRam.StrayFlagsRun`,
  `Stage2Format.StrayFlags`). A mapping is found again if and only if `FlagsFit` (`Stage2WordRuns.MapFoundAgain`).
- Stage 2, addresses: `get_mapping` and `unmap_page` ignore IPA bits above what the root table reaches, so such an
  address acts on its alias (`Stage2Runs.AliasExample`); the run theorems say so with `Fold` for every address
  (`Stage2WordRuns.TranslationsOfWords`).
- Stage 2, granularities: mapping a page, unmapping it and then mapping a 2 MiB block at the same place leaves an L3
  table behind. The block is not counted, unmapping it wraps the counter and the table page is lost
  (`Stage2Runs.DriftExample`, `Stage2Runs.MapHugeStats`, `Stage2WordRuns.CallOfWords`).
- Stage 2, ranges: the header (include/arch/arm64/stage2.h:262-263) promises that a failed `map_range` undoes its own
  changes and never removes a mapping that was there before. The code does neither. It keeps the mapped prefix
  (`Stage2Range.RangeKeepsPrefix`), and a page that lands in a live 2 MiB block takes the other 511 pages of the block
  away (`Stage2Range.RangeLosesBlock`, `Stage2Range.PageLosesBlock`). All translations survive a call if and only if what it
  mapped was there before and covers whole every block it met (`Stage2WordRange.RollsBackOnWords`); a mapping is removed
  if and only if a block is not covered (`Stage2WordRange.RemovesOnWords`); a single page reaches beyond itself if and only if
  it lies in a live block (`Stage2WordRange.PageReachesOutOnWords`).
- Decoder: a second immediate overwrites the other half of a two-part first one and the field sizes no longer add up
  (`InsnWitness.BytesLost`, `InsnProofs.DecodeAccounts`), if the generated opcode map, which is not part of this model,
  holds an entry with such a pair of immediates; the offset helpers leave out the emulate prefix
  (`InsnWitness.OffsetsOff`, `InsnAccounts.OffsetsSkipEmulatePrefix`); bytes behind a complete instruction change its
  decoding exactly when they complete an emulate prefix (`InsnWitness.AddedBytesMatter`,
  `InsnTheorems.DecodeExtend`); a group member that may not carry its VEX prefix is rejected with EINVAL and then accepted
  when the getter is called again on the same structure, if and only if the bytes of its operand are there (`InsnWitness.RejectedOnce`, `InsnRetry.RejectedThenAccepted`).
- The VMX `rip_to_linear` multiplies where the SVM one masks (src/arch/x86/vmx/mmu.c:199 against
  src/arch/x86/svm/mmu.c:179): outside 64-bit code they agree for exactly two sums of CS base and
  RIP (`GuestVirtCopy.RipExample`, `GuestVirtCopy.RipBackendsAgree`).
- The guest page-table builder wraps its addresses with fewer than three pages of RAM, fails, and has then
  overwritten the one or two pages there are (`GuestPageTables.OnePageExample`, `GuestPageTables.CreateGuestPageTables`).
- CR3 cache: recording CR3 0 into a full table breaks the occupied prefix (`Cr3Witness.ZeroBreaksThePrefix`); a failed
  VMWRITE followed by a failed reset loses the link between promoted entries and VMCS targets
  (`Cr3Witness.ResetLostExample`). Nothing else does (`Cr3Cache.RecordKeeps`).
- fw_cfg: a directory that is already registered is not refreshed although the call reports success
  (`FwCfgProofs.StaleDirectory`, `FwCfgProofs.CurrentAfterBuild`); a failed file registration uses up a key
  (`FwCfgProofs.KeyLost`, `FwCfgProofs.KeysUsedUp`), and once enough keys are used up the key wraps and a file registered
  with success is never listed (`FwCfgProofs.WrappedKeyUnlisted`, `FwCfgProofs.ListedIffFileKey`).
- virtio: the comment at include/virtio/virtio.h:98-99 says a ready queue had QueueReady written; a STATUS write makes
  every complete queue ready without it (`Virtio.ReadyNeverAsked`, `Virtio.ReadyWithoutAsking`). A ready queue can lose a
  ring address or DRIVER_OK and stay ready (`Virtio.ReadyButStranded`, `Virtio.EntitledUnlessStranded`). Writing a nonzero
  multiple of 256 to STATUS makes it read 0 without a reset (`Virtio.NotAReset`).
- MMIO windows: a window that ends at or beyond 2^64 is granted but covers no address
  (`MmioWindows.WrappingGranted`, `MmioWindows.ReserveCovers`).

## Model

| member | source | states |
|---|---|---|
| Stage2WordRuns.TranslationsOfWords | src/arch/arm64/stage2.c:366-649 | after any run of map, huge-map and unmap calls whose leaf flags fit, with any allocation failures and any host memory around the tables, get_mapping at every IPA is the flat map updated by the calls that succeeded; failed calls, out of memory midway included, change no translation |
| Stage2WordRuns.CallOfWords | src/arch/arm64/stage2.c:366-649 | one call on words: its answer, its effect on every translation, host memory still decoding to a tree of tables, statistics staying exact if and only if a successful call does not map one granularity over the other, table pages staying linked if and only if no successful 2 MiB map lands on a table |
| Stage2WordRuns.MapFoundAgain | src/arch/arm64/stage2.c:383-442 | a map call that answered OK is found by the walker at its level and address if and only if the flags fit the leaf |
| Stage2WordRuns.AccountsOfWords | src/arch/arm64/stage2.c:253-408 | in every run with fitting flags and without mixed granularities the counters equal the leaves the walker finds and their bytes, each table page is the root or hangs off exactly one entry, and teardown by the type bits frees every table page exactly once |
| Stage2WordRam.StrayFlagsRun | src/arch/arm64/stage2.c:404-442 | map_huge_page(0x20_0000, 0x20_0000, 0x42) answers OK and the walker does not find the block |
| Stage2WordRam.RamOfWords | src/arch/arm64/stage2.c:464-548 | either RAM mapper on words, on an unmapped in-range region around windows of whole pages, with flags that fit its leaves: the only failure is running out of table pages; of the part it came through, all of it on success, exactly the addresses in a window stay unmapped, all others go to pa + offset and everything else keeps its translation, so on success both mappers agree |
| Stage2WordRam.MappersAgree | src/arch/arm64/stage2.c:486-548 | when both succeed, the huge-preferring and the page-by-page mapper give the same translation at every IPA |
| Stage2WordRam.RegistryFits | src/arch/arm64/stage2.c:464-480 | the windows of the MMIO registry after any reservations and releases are windows of whole pages |
| Stage2WordRam.MaskedFitRegion | include/arch/arm64/stage2.h:64-65 | flags inside S2_LEAF_FLAGS_MASK fit the leaves of every region, blocks and pages |
| Stage2WordRange.RangeOfWords | src/arch/arm64/stage2.c:445-459 | every translation after any map_range call, by how far it came, the end if and only if it answers OK: the range so far goes to its target, of a block it met nothing else is left, the rest is unchanged |
| Stage2WordRange.RollsBackOnWords | src/arch/arm64/stage2.c:445-459 | any map_range call, a failed one in particular, leaves every translation unchanged if and only if what it mapped already went to its target and covers whole every block it met |
| Stage2WordRange.RemovesOnWords | src/arch/arm64/stage2.c:445-459 | a map_range call removes a translation that was there before if and only if it met a block without covering it whole |
| Stage2WordRange.PageReachesOutOnWords | src/arch/arm64/stage2.c:366-442 | a successful map_page changes a translation outside its own page if and only if that page lies in a live 2 MiB block |
| Stage2Words.MapSim | src/arch/arm64/stage2.c:366-442 | mapping with fitting flags keeps the words decoding to the descriptors, allocation failures included |
| Stage2Words.UnmapSim | src/arch/arm64/stage2.c:612-649 | the second descent, which follows addresses without looking at types, and the zeroed word keep them decoding |
| Stage2Format.LeafReadsBack | include/arch/arm64/stage2.h:22-74 | a leaf word, with whatever flags, is read back as a leaf at its address if and only if the flags fit |
| Stage2Format.FitsEverywhere | include/arch/arm64/stage2.h:60-74 | the flags that fit every leaf of a level are those without address bits and, in a block, without the table bit |
| Stage2Format.MaskedFlagsFit | include/arch/arm64/stage2.h:64-65 | flags inside S2_LEAF_FLAGS_MASK fit every leaf |
| Stage2Format.StrayFlags | src/arch/arm64/stage2.c:404-405 | two flag words that s2_map accepts, one making a block a table and one moving a page |
| Stage2Format.TypesTell | src/arch/arm64/stage2.c:263-370 | the valid bit and the type bits that the map path and the teardown test agree with what the walker reads |
| Stage2Refinement.GetOrCreateStep | src/arch/arm64/stage2.c:366-378 | linking a fresh table keeps the tree and all walks, except through a 2 MiB block sitting in that entry |
| Stage2Runs.UnmapRefines | src/arch/arm64/stage2.c:612-649 | unmap_page removes exactly the leaf found at the folded address |
| Stage2Runs.MappingIsFlat | src/arch/arm64/stage2.c:556-603 | get_mapping on a tree that refines a flat map is that map's translation |
| Stage2Runs.MapPageStats | src/arch/arm64/stage2.c:396-408 | a 4 KiB map keeps the counters exact if and only if it does not land in a live block |
| Stage2Runs.MapHugeStats | src/arch/arm64/stage2.c:396-408 | a 2 MiB map keeps the counters exact if and only if its L2 entry held no table |
| Stage2Runs.UnmapStats | src/arch/arm64/stage2.c:641-646 | removing a leaf never underflows an exact counter and keeps it exact |
| Stage2Runs.DriftExample | src/arch/arm64/stage2.c:366-409 | the three calls after which a block is uncounted and its removal wraps the counter |
| Stage2Runs.AliasExample | src/arch/arm64/stage2.c:556-649 | with one page mapped, get_mapping and unmap_page of an IPA 2^39 above it answer for it and remove it |
| Stage2Refinement.WithinReach | src/arch/arm64/stage2.c:34-51 | an IPA that a valid geometry admits is one its root table can address |
| Stage2Ram.MmioPageIs | src/arch/arm64/stage2.c:464-480 | for windows of whole pages, wrapped ones included, the overlap test on a page is true exactly for the addresses the registry counts as MMIO |
| Stage2Range.BadSize | src/arch/arm64/stage2.c:451-452 | with no size, or one that is not whole pages, map_range answers EINVAL and changes nothing |
| Stage2Range.RangeKeepsPrefix | src/arch/arm64/stage2.c:445-459 | two pages across a 2 MiB boundary with table pages for the first only: the call fails and the first stays mapped |
| Stage2Range.RangeLosesBlock | src/arch/arm64/stage2.c:445-459 | a block at 0 and map_range of the last page of it and one more: its first page already goes to its target, the call fails, and IPA 0, which it never named, is no longer mapped |
| Stage2Range.PageLosesBlock | src/arch/arm64/stage2.c:366-442 | a successful map_page inside that block after which IPA 0 is no longer mapped |
| Stage2Teardown.TeardownFreesAll | src/arch/arm64/stage2.c:253-269 | teardown frees every linked table page exactly once, and all table pages if and only if none was dropped |
| Stage2Context.Context.MapOne | src/arch/arm64/stage2.c:383-409 | the descent loop with in-place writes is the modelled map step |
| Stage2Context.Context.Walk | src/arch/arm64/stage2.c:556-588 | the walk loop is the modelled walk |
| Stage2Context.Context.UnmapPage | src/arch/arm64/stage2.c:612-649 | the second descent and the clearing write are the modelled unmap |
| Stage2Context.Context.MapGuestRam4k | src/arch/arm64/stage2.c:486-503 | the page loop is the modelled mapper |
| Stage2Context.Context.MapGuestRamHuge | src/arch/arm64/stage2.c:513-548 | the stride loop is the modelled mapper |
| Stage2Context.Context.FreeTableTree | src/arch/arm64/stage2.c:253-269 | the recursive loop, terminating by level, frees the modelled list of pages |
| InsnProofs.DecodeAccounts | src/arch/x86/decoder/insn.c:64-795 | a successful decode has a length from 1 to min(15, buffer); its fields put together are its bytes; the field sizes add up to the length if and only if no second immediate overwrote a two-part first one |
| InsnAccounts.EveryDecodeAddsUp | src/arch/x86/decoder/insn.c:64-795 | when no attribute the tables can produce, groups included, joins a second immediate with kinds 4, 5 or 7, every successful decode adds up |
| InsnAccounts.DecodeEndsWithImmediate | src/arch/x86/decoder/insn.c:562-757 | a decode that comes to its immediates has known operand and address sizes, succeeds if and only if the immediate bytes are there, and ends with them |
| InsnAccounts.OffsetsSkipEmulatePrefix | include/arch/x86/decoder/insn.h:283-310 | each of the seven fields lies at its helper's offset plus the emulate prefix, so the helpers are right if and only if there is none |
| InsnWitness.BytesLost | src/arch/x86/decoder/insn.c:683-718 | ten bytes that decode with length 10 and field sizes adding up to less |
| InsnWitness.AddedBytesMatter | src/arch/x86/decoder/insn.c:88-113 | ud2 decodes, and decodes differently with "xen" and an instruction behind it |
| InsnWitness.OffsetsOff | include/arch/x86/decoder/insn.h:291-294 | an instruction behind an emulate prefix whose opcode offset helper is wrong |
| InsnProofs.LastPrefix | src/arch/x86/decoder/insn.c:138-181 | the four prefix bytes hold exactly the distinct prefixes seen, the last one in byte 3 |
| InsnProofs.ImmediateSound | src/arch/x86/decoder/insn.c:562-728 | the immediate stage appends exactly the bytes it read, or loses some in one named case |
| InsnTheorems.DecodeCut | src/arch/x86/decoder/insn.c:64-795 | cutting the buffer anywhere behind the instruction leaves the whole result unchanged |
| InsnTheorems.DecodeCutExactly | src/arch/x86/decoder/insn.c:206-222 | for any tables: cutting the buffer behind a decoded instruction leaves the whole result unchanged, except when the prefix stage looked one byte further than the instruction goes and that byte is cut off; then the decode answers ENODATA |
| InsnTheorems.DecodeExtend | src/arch/x86/decoder/insn.c:88-113 | bytes added behind a decoded instruction change the result if and only if they complete an emulate prefix |
| InsnTheorems.AnyOrderDecodes | src/arch/x86/decoder/insn.c:127-795 | getters called in any order and number up to the first failure lead to the result of insn_decode, and a failure is the failure of insn_decode; InsnRetry goes on from there |
| InsnRetry.AnswersIndependent | src/arch/x86/decoder/insn.c:127-757 | unless the instruction is rejected, every getter call on one structure, in any order and number and after any failures, answers what it would answer as the first call |
| InsnRetry.NoDataIsFinal | src/arch/x86/decoder/insn.c:127-757 | once a getter ran out of data every later call answers OK where the field was got before and ENODATA everywhere else |
| InsnRetry.RejectedThenAccepted | src/arch/x86/decoder/insn.c:385-757 | an instruction rejected at its ModRM byte is accepted by the next call if and only if its SIB and displacement bytes are there, without attributes and ending with them; otherwise that call answers ENODATA |
| InsnRetry.RejectedOpcode | src/arch/x86/decoder/insn.c:279-370 | a rejected opcode stays consumed: the next call takes the byte behind it for the opcode under the same prefixes |
| InsnRetry.CallIsGet | src/arch/x86/decoder/insn.c:127-757 | the call that keeps what a failing stage leaves behind agrees with the getter in answer and, on success, structure |
| InsnWitness.RejectedOnce | src/arch/x86/decoder/insn.c:385-423 | four bytes the getters reject with EINVAL and accept when called again |
| InsnTheorems.DecodeInBounds | src/arch/x86/decoder/insn.c:345-357 | with at most two escapes in a row no decode writes past the opcode bytes |
| InsnTheorems.TakesTwo | src/arch/x86/decoder/insn.c:206-222 | a VEX or XOP byte that turns out to be an opcode consumes the byte that was looked at to tell |
| InsnOperands.OperandRoundTrip | src/arch/x86/decoder/insn.c:385-559 | every operand written by the ModRM and SIB rules, in 16-bit and in wider addressing, of a plain opcode or of a group member that accepts the encoding, is read back: exactly its bytes are consumed and the three fields are its three parts |
| InsnOperands.ImmediateConsumes | src/arch/x86/decoder/insn.c:562-728 | the immediate stage succeeds if and only if the bytes its kind calls for are there, and consumes exactly those |
| InsnOperands.StageSizes | src/arch/x86/decoder/insn.c:127-423 | operand size stays 2, 4 or 8 and address size 4 or 8 (2 or 4 outside 64-bit mode), so no stage meets a size it does not know |
| InsnOperands.PrefixesSwitchSizes | src/arch/x86/decoder/insn.c:139-170 | operand and address size are switched exactly when their prefix occurs, however often |
| InsnOperands.SignExpanded | src/arch/x86/decoder/insn.c:502-559 | displacements and signed immediates keep their signed value when expanded to four bytes |
| InsnObject.ScanPrefixes | src/arch/x86/decoder/insn.c:139-170 | the prefix loop with its duplicate search is the modelled scan |
| InsnObject.PlaceLast | src/arch/x86/decoder/insn.c:171-181 | the swap loop puts the last prefix into byte 3 |
| InsnObject.MatchesPrefix | src/arch/x86/decoder/insn.c:88-105 | the peek loop recognises an emulate prefix and never looks past the end |
| InsnObject.Decoder.ReadPrefixes | src/arch/x86/decoder/insn.c:127-262 | the in-place prefix stage is the modelled one, and on failure leaves the modelled structure |
| InsnObject.Decoder.ReadOpcode | src/arch/x86/decoder/insn.c:279-370 | the escape loop is the modelled opcode stage, and on failure leaves the modelled structure |
| InsnObject.Decoder.Demand | src/arch/x86/decoder/insn.c:127-728 | a getter on the structure, with what it leaves on failure, is the modelled call |
| InsnObject.DecodeInsn | src/arch/x86/decoder/insn.c:776-795 | the demand-driven, in-place decode is the modelled one |
| GuestCopy.Memory.CopyFromGuest | src/core/vm.c:508-593 | reads exactly the longest backed prefix of the range, byte for byte, and answers accordingly |
| GuestCopy.Memory.CopyToGuest | src/core/vm.c:396-505 | writes exactly the longest backed prefix and leaves every other guest byte unchanged |
| GuestCopy.Memory.ZeroGuestMemory | src/core/vm.c:596-668 | zeroes exactly the longest backed prefix and nothing else |
| GuestCopy.ReadAfterWrite | src/core/vm.c:396-593 | a read after a write returns the written prefix |
| GuestCopy.RegionClampIdle | src/core/vm.c:596-668 | the page clamp alone keeps a chunk inside its region |
| GuestMmu.TranslateShift | src/arch/x86/svm/mmu.c:46-212 | in all four paging regimes translation preserves offsets within a 4 KiB page |
| GuestWalks.LongAt | src/arch/x86/svm/mmu.c:46-87 | for an address put together from four indices and an offset: which entries decide, where a large page ends the walk, where the offset goes |
| GuestWalks.PaeAt | src/arch/x86/svm/mmu.c:91-128 | the same for PAE paging |
| GuestWalks.LegacyAt | src/arch/x86/svm/mmu.c:132-160 | the same for 32-bit paging with and without PSE |
| GuestVirtCopy.LongWalk | src/arch/x86/svm/mmu.c:46-87 | the level loop over guest memory is the recursive four-level walk |
| GuestVirtCopy.PaeWalk | src/arch/x86/svm/mmu.c:91-128 | the PAE walk over guest memory is the modelled one |
| GuestVirtCopy.LegacyWalk | src/arch/x86/svm/mmu.c:132-160 | the two-level walk over guest memory is the modelled one |
| GuestVirtCopy.GvaToGpa | src/arch/x86/svm/mmu.c:182-212 | the regime is chosen from CR0, CR4 and EFER as modelled |
| GuestVirtCopy.WholePage | src/arch/x86/svm/mmu.c:214-242 | with page-aligned regions a page is backed as a whole or not at all, so no chunk is short |
| GuestVirtCopy.CopyFromGuestVirt | src/arch/x86/svm/mmu.c:214-242 | byte i of the copy is the guest byte at the translation of gva + i; it stops only at a byte that cannot be read |
| GuestVirtCopy.RipBackendsAgree | src/arch/x86/vmx/mmu.c:188-201 | the two backends' linear RIP agree outside 64-bit code for exactly two sums |
| GuestVirtCopy.RipExample | src/arch/x86/vmx/mmu.c:188-201 | outside 64-bit code, with CS base 0 and RIP 1, the SVM backend answers 1 and the VMX backend 0xffff_ffff |
| GuestPageTables.IdentityMap | src/arch/x86/svm/mmu.c:46-87 | over the built tables the walker maps every address below 1 GiB to itself and faults from there to 2^48 |
| GuestPageTables.CreateGuestPageTables | src/arch/x86/vmx/ept.c:727-786 | with memory for its buffer the builder succeeds if and only if RAM has three pages; then the walker sees the identity map and RAM below the tables is untouched; with one or two pages it fails and has overwritten them, and without the buffer nothing happens |
| GuestPageTables.OnePageExample | src/arch/x86/vmx/ept.c:727-786 | with one page of zeroes as RAM the call fails and address 0 holds the first byte of the page directory |
| Cr3Policy.PolicyIsTopFour | src/arch/x86/vmx/vmx.c:2230-2298 | min(4, eligible) distinct slots in descending (hits, last seen) order, none passed over |
| Cr3Cache.ApplyKeeps | src/arch/x86/vmx/vmx.c:2300-2411 | promoted set = VMCS target set survives apply if and only if a failed write is not followed by a failed reset |
| Cr3Cache.EvictionSafe | src/arch/x86/vmx/vmx.c:2425-2505 | in a full table an eviction candidate always exists, is not promoted and is the least used of those |
| Cr3Cache.RecordKeeps | src/arch/x86/vmx/vmx.c:2413-2511 | one record call keeps the invariant if and only if it neither records 0 into a full table nor loses the reset |
| Cr3Cache.RunsFromInit | src/arch/x86/vmx/vmx.c:2413-2511 | every run of nonzero CR3s without two VMWRITE failures in a row keeps prefix, distinctness and promoted = targets |
| Cr3Witness.ZeroBreaksThePrefix | src/arch/x86/vmx/vmx.c:2413-2511 | a run from the empty cache: sixteen values fill the table, CR3 0 then breaks its occupied prefix |
| Cr3Effect.ApplyInstalls | src/arch/x86/vmx/vmx.c:2300-2411 | when no VMWRITE fails, the VMCS targets and the promoted entries after apply are exactly the policy's choice |
| Cr3Effect.RecordCounts | src/arch/x86/vmx/vmx.c:2413-2511 | a record call adds one to its value's count, zeroes that of an evicted value and changes no other |
| Cr3Effect.HitsCount | src/arch/x86/vmx/vmx.c:2413-2511 | in every run, while a value's entry is not replaced, its count grows by the number of times it is recorded |
| Cr3Effect.HitsSinceEviction | src/arch/x86/vmx/vmx.c:2413-2511 | after its entry was last replaced a value's count is the number of times it was recorded since |
| Cr3Witness.ResetLostExample | src/arch/x86/vmx/vmx.c:2300-2411 | a run from the empty cache: one value is promoted, a second one reaches the threshold, and a refused VMWRITE with a refused reset breaks promoted = targets |
| Cr3CacheObject.ShadowCache.PolicyFrequency | src/arch/x86/vmx/vmx.c:2230-2298 | the nested selection loops are the modelled policy |
| Cr3CacheObject.ShadowCache.Apply | src/arch/x86/vmx/vmx.c:2300-2411 | the comparison, VMWRITE and flag loops are the modelled apply |
| Cr3CacheObject.ShadowCache.RecordCr3 | src/arch/x86/vmx/vmx.c:2413-2511 | the scans and in-place updates are the modelled record |
| ApicSystem.PageIsAlwaysCurrent | src/arch/x86/vmx/apic.c:381-1219 | after any run over any number of vCPUs, from any contents of ISR, IRR, TMR and registers that the pages mirror, the page word of every architectural register is what relm_apic_read returns, PPR is the demanded priority, DCR is one of eight encodings |
| ApicSystem.FreshMirrored | src/arch/x86/vmx/apic.c:105-170 | initialised vCPUs are such a machine |
| ApicProofs.WriteKeeps | src/arch/x86/vmx/apic.c:1006-1219 | every register write keeps page and registers in step |
| ApicProofs.EoiKeeps | src/arch/x86/vmx/apic.c:426-464 | an EOI keeps page and registers in step |
| ApicProofs.InjectKeeps | src/arch/x86/vmx/apic.c:773-802 | an injection keeps page and registers in step |
| ApicProofs.SetErrorKeeps | src/arch/x86/vmx/apic.c:332-365 | an error report, with or without its interrupt, keeps them in step |
| ApicProofs.ReadIsPage | src/arch/x86/vmx/apic.c:823-981 | a register read and the page word agree in every mirrored state |
| ApicProofs.WriteReadBack | src/arch/x86/vmx/apic.c:823-1219 | a writable register reads back the bits it keeps of the value written |
| ApicEffects.WriteElsewhere | src/arch/x86/vmx/apic.c:426-1219 | a register write by one vCPU changes what any register of any vCPU reads only in that register, in PPR after TPR, in PPR and the retired vector's ISR and TMR words after EOI, and in the vector's IRR and TMR words of the receivers after ICR_LOW |
| ApicEoi.PriorityIsMax | src/arch/x86/vmx/apic.c:381-407 | PPR is the larger of the TPR class and the class of the highest vector in service |
| ApicEoi.EoiRun | src/arch/x86/vmx/apic.c:426-464 | n EOIs retire n in-service vectors in strictly decreasing order and change nothing else |
| ApicEoi.EoiLowersPpr | src/arch/x86/vmx/apic.c:381-464 | under a fixed TPR an EOI never raises PPR |
| ApicEoi.EoiDrains | src/arch/x86/vmx/apic.c:381-464 | as many EOIs as vectors in service retire exactly those, clear exactly their TMR bits, empty ISR and bring PPR to the TPR class |
| ApicEoi.SpuriousEoi | src/arch/x86/vmx/apic.c:444-448 | an EOI with nothing in service changes nothing |
| ApicTimer.DcrWrite | src/arch/x86/vmx/apic.c:1203-1208 | any DCR write leaves one of eight encodings, whose divisor is the one section 10.5.4 of the Intel SDM assigns |
| ApicTimer.OneShotExpires | src/arch/x86/vmx/apic.c:721-756 | one-shot CCR is zero if and only if ICR * 10 ns * divisor have passed |
| ApicTimer.OneShotFalls | src/arch/x86/vmx/apic.c:721-756 | one-shot CCR never rises with time |
| ApicTimer.PeriodicRepeats | src/arch/x86/vmx/apic.c:721-756 | periodic CCR stays in 1..ICR and repeats after any number of periods |
| ApicTimer.Unarmed | src/arch/x86/vmx/apic.c:721-756 | exactly when CCR reads zero, a timer armed at clock zero included |
| ApicSystem.FanOut | src/arch/x86/vmx/apic.c:483-704 | a FIXED ICR write sets the vector in IRR and its level in TMR for exactly the matching vCPUs that fit the target array, all of them when it is as large as the vCPU array, and changes no other vCPU |
| ApicSystem.TargetsExactly | src/arch/x86/vmx/apic.c:483-544 | a vCPU is in the target list if and only if it matches and fewer than the array holds match before it |
| ApicEffects.ShorthandCounts | src/arch/x86/vmx/apic.c:507-524 | for every ICR_LOW with that shorthand: SELF has one target, ALL every vCPU, ALL BUT SELF one less, whatever the destination |
| ApicEffects.PhysicalIpi | src/arch/x86/vmx/apic.c:483-704 | after a guest writes a destination to ICR_HIGH and a physical FIXED command to ICR_LOW, the vector is in the IRR of exactly the vCPUs whose ID register reads that destination, and every other IRR is unchanged |
| ApicEffects.LogicalIpi | src/arch/x86/vmx/apic.c:483-704 | the same two writes in logical mode put the vector into the IRR of every vCPU whose LDR shares a bit with the destination |
| ApicEffects.LogicalMiss | src/arch/x86/vmx/apic.c:483-704 | and leave the IRR of every vCPU without such a bit alone |
| ApicEffects.NothingPending | src/arch/x86/vmx/apic.c:105-170 | after init on a zeroed vCPU and after every ESR write no error is pending |
| ApicEffects.ErrorsLatch | src/arch/x86/vmx/apic.c:332-365 | with nothing pending, as after init and after every ESR write: over any run of the machine without an ESR write and then one, ESR reads exactly the errors reported in the run, and none stays pending |
| ApicObject.FindHighest | src/arch/x86/vmx/apic.c:387-395 | the word scan from the top finds the highest vector |
| ApicObject.VirtApic.EndOfInterrupt | src/arch/x86/vmx/apic.c:426-464 | the in-place EOI is the modelled one |
| ApicObject.ResolveTargets | src/arch/x86/vmx/apic.c:483-544 | the resolve loop is the modelled target list |
| ApicObject.HandleIcrWrite | src/arch/x86/vmx/apic.c:658-704 | storing ICR, resolving and delivering in place over distinct vCPUs is the modelled fan-out |
| FwCfgFiles.FilesReachTheGuest | src/firmware/fw_cfg.c:58-479 | any files registered on a fresh device, the directory built, selected, read by any mix of 1-, 2- and 4-byte INs and parsed: entry i is file i, and reading its key gives its bytes followed by zeros |
| FwCfgFiles.FilesInOrder | src/firmware/fw_cfg.c:142-179 | files are stored in order under consecutive keys |
| FwCfgProofs.EndToEnd | src/firmware/fw_cfg.c:181-434 | the same from any registry in order, well-known items mixed in |
| FwCfgProofs.RegistrationsKeep | src/firmware/fw_cfg.c:58-179 | any registrations, failures included, keep keys distinct and earlier items in place |
| FwCfgProofs.InsStream | src/firmware/fw_cfg.c:418-479 | any mix of 1-, 2- and 4-byte INs has 32-bit values and delivers the rest of the selected item followed by zeros |
| FwCfgProofs.DirRoundTrip | src/firmware/fw_cfg.c:181-245 | parsing the directory bytes big-endian lists the files in registration order |
| FwCfgProofs.BuildRegisters | src/firmware/fw_cfg.c:181-245 | building appends exactly one item, the directory of the files present |
| FwCfgProofs.CurrentAfterBuild | src/firmware/fw_cfg.c:181-245 | after a build that reports success the directory lists the present files if and only if there was no directory or it was current already |
| FwCfgProofs.StaleDirectory | src/firmware/fw_cfg.c:181-245 | build, register a file, build: every call reports success and the directory is out of date |
| FwCfgProofs.KeysUsedUp | src/firmware/fw_cfg.c:142-179 | exactly when a failed file registration uses up a key |
| FwCfgProofs.KeyLost | src/firmware/fw_cfg.c:142-179 | such a registration |
| FwCfgProofs.ListedIffFileKey | src/firmware/fw_cfg.c:142-245 | from any registry, a file registered with success is added to the files listed if and only if the key it got is at least FILE_FIRST |
| FwCfgProofs.WrappedKeyUnlisted | src/firmware/fw_cfg.c:142-245 | after 0x8000 refused registrations a file is registered with success under key 0 and not listed |
| FwCfgDevice.Device.DirectoryBytes | src/firmware/fw_cfg.c:181-245 | the counting and filling loops produce the modelled bytes |
| FwCfgDevice.Device.RegisterFile | src/firmware/fw_cfg.c:142-179 | in place, and the key handed out is the key of the stored item |
| FwCfgDevice.Device.HandleIo | src/firmware/fw_cfg.c:436-479 | selector and data port behave as modelled, every other access changes nothing and leaves the value alone |
| Virtio.ReadyIsEarned | src/virtio/virtio.c:128-417 | in every run a ready queue had, since the last reset or FAILED write, a step with DRIVER_OK set and all ring addresses nonzero, and has been ready ever since |
| Virtio.EntitledUnlessStranded | src/virtio/virtio.c:234-401 | ready queues stay entitled in an access if and only if it does not take away DRIVER_OK or a ring address |
| Virtio.ReadyButStranded | src/virtio/virtio.c:303-401 | two runs from reset at whose end the queue is ready, one without DRIVER_OK, one with a ring address of 0 |
| Virtio.BringUp | src/virtio/virtio.c:303-401 | selecting a queue and writing its six address registers sets its three rings and no other queue; after DRIVER_OK it reads as ready if and only if no ring address is zero |
| Virtio.ReadyWithoutAsking | src/virtio/virtio.c:234-338 | for every access: a queue becomes ready without a QueueReady write if and only if the access is a STATUS write that sets DRIVER_OK, takes nothing down and finds the queue complete |
| Virtio.ReadyHow | src/virtio/virtio.c:128-417 | in every run a ready queue became so at one step since the last take-down, by a QueueReady write or by such a STATUS write, exactly one of the two |
| Virtio.AskedUnlessGranted | src/virtio/virtio.c:128-417 | so it had QueueReady written since the last take-down unless some STATUS write granted it |
| Virtio.ReadyNeverAsked | src/virtio/virtio.c:303-401 | a run from reset without any QueueReady write at whose end the queue is ready |
| Virtio.NotAReset | src/virtio/virtio.c:303-338 | STATUS reads 0 although nothing was taken down if and only if a nonzero multiple of 256 was written; then only that byte changed |
| Virtio.AddressHalves | src/virtio/virtio.c:343-401 | the halves of a ring address may be written in either order |
| Virtio.InterruptHolds | src/virtio/virtio.c:271-300 | a pending interrupt stays until an acknowledgement names it |
| Virtio.NotificationRaises | src/virtio/virtio.c:271-300 | an access raises the interrupt if and only if it is a notification of which the device processed something, and then the interrupt is pending |
| VirtioObject.MmioDevice.RegisterAccess | src/virtio/virtio.c:128-417 | the in-place register switch with its queue loops is the modelled step |
| MmioWindows.WindowsAreApart | src/virtio/mmio.c:36-143 | after any run of reservations and releases an address lies in at most one window and never also in RAM |
| MmioWindows.ReserveCovers | src/virtio/mmio.c:36-109 | a granted reservation adds exactly its addresses, none if and only if its end wraps |
| MmioWindows.ReleaseUncovers | src/virtio/mmio.c:119-143 | a release gives back exactly the addresses of the first window with that start |
| MmioWindows.ReserveThenRelease | src/virtio/mmio.c:36-143 | releasing the start of a granted reservation restores the registry if and only if every window from the first with that start on is the same window |
| MmioWindows.WrappingGranted | src/virtio/mmio.c:36-109 | the last page of the address space is granted and covers nothing |
| MmioWindows.Registry.ReserveRegion | src/virtio/mmio.c:36-109 | the overlap loops and the append are the modelled reservation |
| MmioWindows.Registry.ReleaseRegion | src/virtio/mmio.c:119-143 | the search and the shift are the modelled release |
| MmioWindows.Registry.GpaIsMmio | src/virtio/mmio.c:152-168 | true exactly for the addresses some window covers |

## Left out

- VMX, SVM and EL2 bring-up, VMCS and VMCB programming, VM-exit dispatch, world switch, the Zydis adapter, the IOMMU, boot code and firmware loading.
- EPT and NPT map, unmap and huge-page paths: the stage-2 tables show the same radix tree in its complete form.
- Locks, TLB and cache maintenance, logging and tracing: operations are atomic steps.
- NULL-argument checks, kmap failures and uninitialised-device checks.
- Stage 2: VTCR and VTTBR encoding, the choice of geometry, `unmap_range`, fault handling and table dumps.
- Stage2Words: the results on words ask for leaf flags that fit the leaves being written, and say nothing of a run after a leaf was written with others; those of `Stage2Runs`, `Stage2Range`, `Stage2Teardown` and `Stage2Context` are about descriptors, to which `Stage2Words` ties the words.
- Stage2Format: the address of a table page has bits 12 to 47 only, as the format demands.
- GuestVirtCopy: CR0, CR3, CR4 and EFER are inputs; the VMX backend's walkers read the same values from the VMCS.
- GuestPageTables.CreateGuestPageTables: one RAM region at address 0, as `vm.c` sets it up, of at most 2^52 bytes.
- Cr3Cache.RunsFromInit: at most 2^64 - 1 recorded exits.
- ApicProofs and ApicSystem: the register switch of read and write is on values; hardware writing TPR in the page without an exit and the move of vectors from IRR to ISR are not modelled, so the results start from any ISR.
- ApicEffects.NothingPending: relm_apic_init never assigns the pending errors; they are 0 because the vCPU is allocated zeroed and initialised once, which the initial state takes over.
- ApicSystem.FanOut: delivery modes other than FIXED are only logged by the code, and waking a halted vCPU is not modelled.
- ApicTimer: clock readings lie between the arming time and 2^64.
- FwCfg: names of exactly 55 bytes and the items that `relm_fw_cfg_setup` registers.
- InsnDecoder: attribute words are held as their bit fields, and the ModRM, SIB, displacement and immediate stages are on values.
- InsnTheorems.AnyOrderDecodes: stops at the first failure; calls after failures are in `InsnRetry`. After an opcode rejected with EINVAL the further calls are given by `InsnRetry.RejectedOpcode` one at a time.
- InsnTheorems.DecodeCut: asks that VEX and XOP bytes read as opcodes be followed by a byte of their own, which the generated tables must ensure; `InsnTheorems.DecodeCutExactly` asks for nothing.
- InsnTheorems.DecodeInBounds: asks for at most two escapes in a row, which the generated tables must ensure.
- Virtio: device callbacks do not touch ring addresses, ready flags or registers; ring processing and selector state across unregistration are not modelled.
- MmioWindows: window names, the index iteration and the fault path.
