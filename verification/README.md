# Verification of the AcheronARM64 MMU and system register file

This Dafny project models two parts of AcheronARM64 and proves properties of them.

**The software MMU.** A TLB stands in front of a recursive page-table walk with three control
registers, three kinds of invalidation, eviction and four counters. The walk ignores the ASID and the
top sixteen address bits except through the choice of root table; the TLB is keyed by one 4 KB page
or-ed with the ASID, and holds entries of 4 KB, 2 MB and 1 GB. The main results say when the cached
machine gives the address and the six region fields that the machine without a TLB gives, over all runs,
all page tables, all capacities and all choices of evicted entries. Beside the sufficient conditions stand
the exact ones: for two queries, for the registers, for a written word, for a hit, and for the two fields
that a hit does not write.

**The system register file.** MSR, MRS and exception entry and return over ten registers, proved to
behave as the last write to each encoding.

## Layout

| file | contents |
|---|---|
| `Bits.dfy` | 64-bit words as naturals, `&`, `\|`, `~`, shifts, and the lemmas that turn masks into division |
| `Options.dfy` | the optional result |
| `PageTables.dfy` | descriptors, memory, range selection and the walk, in arithmetic |
| `WalkFacts.dfy` | the walk as a relation, block linearity, footprint, definedness, mapping a page |
| `ArmWalk.dfy` | the architecture's walk, and exactly when the emulator's walk is that walk |
| `PlainNumbers.dfy` | addresses, sizes and registers of the walk in plain numbers, from register values and words to the answer |
| `Mmu.dfy` | the emulator's state as a value, the operations, runs |
| `Keys.dfy` | when two queries share a TLB key, what `matches` means |
| `Coherence.dfy` | the record of handed-out translations, the staleness protocol, refinement, exactness |
| `Accounting.dfy` | capacity, entry and counter conservation, ASID isolation, the shipped descriptor read |
| `MMUEmulator.dfy` | the class, computing with masks and shifts, proved against `Mmu.dfy` |
| `Sessions.dfy` | sequences of calls on one emulator object, of either class |
| `SystemRegisters.dfy` | the register file class, its history, last write wins |

`dafny verify dfyconfig.toml` checks everything.

## How the model reads the source

* The descriptor read is a stub that yields 0. Memory is a parameter here: any map from address to
  descriptor, where an absent address holds the word 0. The shipped program is the empty map.
* A descriptor is the record of the fields the walk uses. The declared bit-field widths add up to 65
  bits, so the layout in the source's comments is not the layout a compiler gives; no result here depends
  on either.
* Behaviour that C++ leaves undefined is a third outcome of the walk: a shift by 64 when T0SZ or T1SZ is 0,
  and a negative shift at level 5. A freshly constructed emulator has T0SZ = 0, so its first translation is
  undefined until `set_tcr`. Methods require only that the call at hand is defined; a hit needs no walk.
* Counters wrap at 2^64. Encodings in a decoded instruction are 64-bit fields that are truncated to 8 bits
  on the way to the register accessors.
* The victim of an eviction is arbitrary and the capacity is any number from 1 up (1024 as shipped).

## Where the code and its documentation differ

The model follows the code.

* The header and the project's README promise ASID tagging. It holds exactly for addresses below 2^48
  (`Keys.TagSeparates`, `Accounting.IsolationExact`): the ASID is or-ed into address bits, and where those are
  all ones it does not count.
* A hit leaves `contiguous` and `shareable` as the caller had them, so a caller with a fresh region is told of a
  shareable page only on the miss (`Coherence.HitRegionExact`, `Coherence.RegionsExact`).
* `TLBEntry::matches` is never called. It would be a correct lookup everywhere exactly when no gigabyte is divided
  between root tables (`Coherence.MatchesEverywhereExact`).
* A comment says the mask on the table registers clears the ASID. It clears bits 15:0 and keeps bits 63:48,
  where the register header puts the ASID, so the root address depends on it (`WalkFacts.TtbrAsidExact`). The
  header's base field is 4 KB aligned, and the mask also drops its bits 15:12 (`WalkFacts.RootFieldExact`).
* The project claims four-level Arm page tables with 4 KB pages. Leaf sizes for levels 0 to 3 are 1 GB, 2 MB, 2 MB
  and 4 KB here, and bits `11` at level 3 mean a table; sections D8.2 and D8.3 of the Arm Architecture Reference
  Manual (DDI 0487) have no leaf, 1 GB, 2 MB and 4 KB, and bits `11` mean a page. `ArmWalk.AgreesExactly` says
  when the two walks are one, memory type and permissions being decoded as the emulator decodes them, and
  `ArmWalk.StandardPageLost` that an ordinary page never translates.
* TTBR1 is said to cover the upper half. It covers every address from 2^(64-T1SZ) up that TTBR0 does not, which
  is the upper half exactly when one of the sizes is 1 (`WalkFacts.UpperHalfExact`).
* `emulateMSR` is documented to return false if the instruction is unknown. It does so by the kind of instruction
  only: every register encoding succeeds, also those without a register and the identification registers, which
  ignore the write.
* `handleExceptionEntry` is documented to advance the PC to the exception vector. It records ELR, ESR and FAR and
  leaves the PC and VBAR alone (`SystemRegisters.SystemRegisterEmulator.HandleExceptionEntry`).

## Model

| member | source | states |
|---|---|---|
| Coherence.StalenessProtocol | src/MMUEmulator.cpp:21-117 | After any run from power-on, with page-table writes, faults, register changes, invalidations and evictions in any order, a query is answered as a fresh walk answers it if no translation handed out under its key since the last invalidation differs from the present walk, and none of them came through another root table |
| Coherence.GuestStaleness | src/MMUEmulator.cpp:21-117 | The same in usable form: for canonical addresses (low ones not under ASID 0xFFFF) or addresses below 2^48 under any ASID, while no page is divided between root tables, every key outside the stale set is answered right, page-table writes included |
| Coherence.TwoCallsExact | src/MMUEmulator.cpp:50-88 | For either kind of guest, every two translations are right over all page tables if and only if T0SZ is at most 52, or T1SZ is not below T0SZ and both registers name one table |
| Coherence.GuestSeparatedExactly | src/MMUEmulator.cpp:50-73 | No two queries of such a guest share a key through different root tables if and only if that condition on the registers holds |
| Coherence.HitExact | src/MMUEmulator.cpp:73-88 | A hit of such a query is right if and only if the translation that filled the entry is still what the page tables say |
| Coherence.FaultMapRetry | src/MMUEmulator.cpp:95-114 | After any run a trusted query that faults stays trusted through any page-table writes; the retry is answered by the new walk without an invalidation |
| Accounting.FaultIsNotCached | src/MMUEmulator.cpp:95-114 | After any run a query answered without an address is next answered by the walk of the moment, whatever else happened except a translation under its key |
| Accounting.HitsUntilRemoved | src/MMUEmulator.cpp:73-113 | Once a query was answered with an address, every query with its key hits with the same region, whatever comes between, until its entry is evicted, invalidated or flushed |
| Accounting.StepRetains | src/MMUEmulator.cpp:21-34 | An operation leaves an entry exactly as it was if and only if it is not its eviction, its invalidation or a flush |
| Coherence.CacheRefinesWalk | src/MMUEmulator.cpp:69-117 | A run whose translations are trusted gives the same sequence of answers (address and six region fields, fault, undefined) as the machine without a TLB |
| Coherence.GuestRunRefines | src/MMUEmulator.cpp:69-117 | From power-on a guest of either kind that writes page tables as it likes, and translates no stale key and only while no page is divided, gets exactly the answers (address and six region fields) of the machine without a TLB |
| Coherence.DirtyCoversStale | src/MMUEmulator.cpp:69-117 | A caller that only notes which words it wrote, and keeps off the keys handed out over them until invalidated, translates no stale key |
| Coherence.HitRegionExact | src/MMUEmulator.cpp:76-88 | A right hit gives the caller all eight region fields of the walk if and only if the two it does not write held the right values before |
| Coherence.FreshRegionExact | src/MMUEmulator.cpp:76-88 | With a fresh region a trusted translation shows the walk's region if and only if it is not a hit on a shareable page |
| Coherence.RegionsExact | src/MMUEmulator.cpp:76-88 | Over a whole disciplined run a caller with fresh regions sees all eight fields as without a TLB if and only if no hit is on a shareable page |
| Coherence.CarriedRegionsExact | src/MMUEmulator.cpp:76-88 | A caller that passes one region along sees all eight fields as without a TLB if and only if every hit finds in it the two values the walk would write |
| Coherence.PlainRunRefines | src/MMUEmulator.cpp:69-117 | Over fixed page tables every run of such a guest gets exactly the answers, six fields each, of the machine without a TLB, for every capacity and every victim |
| Coherence.SeparationExact | src/MMUEmulator.cpp:73-88 | The condition on two queries is exact: without it some page tables make the TLB give the second a wrong answer |
| Coherence.AllOnesAsidCollides | src/MMUEmulator.cpp:73-88 | Every low address under ASID 0xFFFF collides with its twin with all top bits set: with some page tables the twin is given an address although its walk yields none |
| Coherence.StaleExact | src/MMUEmulator.cpp:230-233 | A cached query is answered right after every write to an address if and only if its walk does not read that address or its own key was invalidated; another page of the block does not do |
| Coherence.StepKeeps | src/MMUEmulator.cpp:21-34 | Every operation keeps the invariant: each entry is exactly what a translation on the monitor's record would have stored under that key |
| Coherence.RemapVisible | src/MMUEmulator.cpp:230-233 | In any state: write a leaf to the level-3 slot, invalidate the address, translate; the answer is the new page plus the offset |
| Coherence.KeySoundness | src/MMUEmulator.cpp:73-77 | After any run of a guest of either kind, the entry found under the key of a query below 2^48 satisfies `matches` for that query |
| Accounting.KeySoundnessExact | src/MMUEmulator.cpp:73-77 | For a canonical guest the entry found under a query's key satisfies `matches` for it after every run if and only if the address is below 2^48 |
| Coherence.EntryIsTrue | include/acheronarm64/MMUEmulator.hpp:88-94 | Where `matches` holds for a non-stale entry and the root table is the one it was stored through, the entry repeats a fresh walk |
| Coherence.MatchesIsCoherent | include/acheronarm64/MMUEmulator.hpp:88-94 | Where no gigabyte is divided between root tables a fully associative lookup by `matches` would be coherent |
| Coherence.MatchesExact | include/acheronarm64/MMUEmulator.hpp:88-94 | Within a gigabyte, `matches` is right for all page tables if and only if both addresses select the same root table |
| Coherence.MatchesEverywhereExact | include/acheronarm64/MMUEmulator.hpp:88-94 | `matches` is right for every entry, address and page table if and only if T0SZ is at most 34, or T1SZ is not below T0SZ and both registers name one table |
| Keys.KeyBitsMeaning | src/MMUEmulator.cpp:73 | The masked and or-ed key is the or of ASID and top bits above the 48-bit page |
| Keys.KeyEquality | src/MMUEmulator.cpp:73 | Two keys are equal if and only if the 48-bit pages and the or-ed high parts are |
| Keys.KeyInjectiveLow | src/MMUEmulator.cpp:73 | Below 2^48 the key is injective on page and ASID |
| Keys.KeyCanonical | src/MMUEmulator.cpp:73 | For canonical addresses, the low ones not under ASID 0xFFFF, equal keys mean equal pages |
| Keys.TagSeparates | src/MMUEmulator.cpp:73 | The key keeps all ASIDs of an address apart if and only if the address is below 2^48 |
| Keys.MatchesMeaning | include/acheronarm64/MMUEmulator.hpp:88-94 | `matches` holds if and only if the entry is valid, the ASID equal or stored as 0xFFFF, and the addresses lie in one block of the entry's size |
| PlainNumbers.OneLevel | src/MMUEmulator.cpp:143-203 | At level n the walk reads the word at base + 8 * (va / 2^(39-9n) mod 512): absent or invalid is a fault, a table continues from its frame times 4096, a leaf gives the region of 1 GB, 2 MB, 2 MB or 4 KB around its frame with its attributes, and a leaf at level 4 is a fault |
| PlainNumbers.LowerFromTtbr0 | src/MMUEmulator.cpp:124-127 | Every address below 2^(64-T0SZ) walks from TTBR0 / 65536 * 65536, whatever TTBR1 holds |
| PlainNumbers.UpperFromTtbr1 | src/MMUEmulator.cpp:128-129 | Every address at or above both edges walks from TTBR1 / 65536 * 65536, whatever TTBR0 holds |
| PlainNumbers.NoTable | src/MMUEmulator.cpp:130-134 | Every other address faults between the edges, and is undefined where a size of 0 would be shifted by |
| PlainNumbers.FirstTranslation | src/MMUEmulator.cpp:69-203 | From any state with nothing cached under the key, table words down to a leaf at any of the four levels answer with frame * 4096 / size * size + va mod size |
| PlainNumbers.MapBlock | include/acheronarm64/MMUEmulator.hpp:140-142 | A leaf given an address and written to the slot of any level makes the VA translate into the block of that level's size around the address modulo 2^48 |
| WalkFacts.WalkIsTrace | src/MMUEmulator.cpp:140-204 | The recursion computes the relation: a result is the walk's if and only if a chain of at most five tables ends in a slot that means it (slots and sizes in numbers: PlainNumbers.OneLevel) |
| WalkFacts.DefinedExactly | src/MMUEmulator.cpp:143-163 | The walk leaves the defined shifts if and only if five valid table descriptors follow each other |
| ArmWalk.AgreesExactly | src/MMUEmulator.cpp:159-190 | The walk faults and gives sizes and addresses as the architecture's 4 KB-granule walk (attributes decoded as the emulator decodes them) if and only if the words read hold no leaf at level 0 or 1 and nothing valid at level 3 |
| ArmWalk.StandardPageLost | src/MMUEmulator.cpp:159-163 | For every address, root table and page, tables with an ordinary page descriptor (bits 1:0 set) map the page in the architecture and never translate here |
| ArmWalk.PageBitInverted | src/MMUEmulator.cpp:159-186 | At level 3 this walk succeeds exactly on valid descriptors without the table bit, the architecture's exactly on those with it |
| WalkFacts.ReadCount | src/MMUEmulator.cpp:148-190 | At most five reads, five only when the level-3 descriptor is a table, and then the walk never succeeds |
| WalkFacts.BlockLinearity | src/MMUEmulator.cpp:140-204 | Addresses of one block that select the same root table get the same region, and physical distance equals virtual distance |
| WalkFacts.WalkPerPage | src/MMUEmulator.cpp:140-204 | Once one address of a 48-bit page translates, every address of that page through the same root table translates to the same region |
| WalkFacts.FootprintExact | src/MMUEmulator.cpp:148-163 | For every walk, also one that faults, some write to an address changes it if and only if the walk reads that address |
| WalkFacts.WriteElsewhere | src/MMUEmulator.cpp:148-163 | A write outside the footprint changes neither the walk, faulting or not, nor its footprint |
| WalkFacts.MapPage | include/acheronarm64/MMUEmulator.hpp:136-142 | A leaf given an address and written to the level-3 slot makes the VA translate to that page, the address taken modulo 2^48, plus the offset |
| WalkFacts.OutputAddressRoundTrip | include/acheronarm64/MMUEmulator.hpp:136-142 | Setting and getting an output address returns it if and only if it is a page below 2^48, and leaves every other field as it was |
| WalkFacts.ResultArithmetic | src/MMUEmulator.cpp:165-203 | A successful walk has a size of 4 KB, 2 MB or 1 GB, an aligned base, the address inside the region below 2^48, and the VA's offset |
| WalkFacts.RangeGap | src/MMUEmulator.cpp:50-62 | The addresses out of range are exactly the interval from 2^(64-T0SZ) to 2^(64-T1SZ), and there are some if and only if T1SZ is below T0SZ; TTBR0 wins on overlap |
| WalkFacts.TtbrAsidExact | src/MMUEmulator.cpp:127-129 | The top sixteen bits of the selected table register are without effect on all walks if and only if they are zero |
| WalkFacts.RootFieldExact | src/MMUEmulator.cpp:127-129 | Walking from the masked register and from its bits 47:12 agree over all memories if and only if bits 63:48 and 15:12 are zero |
| WalkFacts.UncutExact | src/MMUEmulator.cpp:50-62 | The choice of root table is constant on blocks of 2^k bytes if and only if T0SZ is at most 64-k, or T1SZ is not below T0SZ and both registers name one table |
| WalkFacts.SelectionPerBlock | src/MMUEmulator.cpp:50-62 | Under that condition any two addresses of one block select the same table |
| WalkFacts.UpperHalfExact | src/MMUEmulator.cpp:57-62 | TTBR1 covers the upper half if and only if T0SZ or T1SZ is 1, and the topmost 2^(64-T1SZ) bytes if and only if T1SZ is 1 |
| Accounting.Conservation | src/MMUEmulator.cpp:76-132 | On every legal run: at most `capacity` entries; filled = live + evicted + removed; hits + misses = calls, misses = walks = faults + fills and faults = calls without address, all modulo 2^64 |
| Accounting.FillCount | src/MMUEmulator.cpp:108-113 | A fill evicts one entry when the TLB is full and none otherwise, and the capacity holds |
| Accounting.EntriesAligned | src/MMUEmulator.cpp:95-106 | In every reachable state each entry is valid, of a leaf size, and aligned to it on both sides |
| Accounting.AnswerArithmetic | src/MMUEmulator.cpp:85-87 | On every run, hit or miss, stale or fresh, an answer lies in its region below 2^48 and keeps the VA's offset |
| Accounting.StubNeverCaches | src/MMUEmulator.cpp:148-157 | With the shipped descriptor read the TLB stays empty and no translation yields an address |
| Accounting.StubCounters | src/MMUEmulator.cpp:148-157 | With the shipped descriptor read a legal run has no hits and misses = walks = faults |
| Accounting.AsidIsolation | src/MMUEmulator.cpp:235-243 | After any run of a guest of either kind, kernel addresses included, invalidating an ASID makes exactly the lookups under it below 2^48 miss (all for 0xFFFF) and keeps every other such entry as it was |
| Accounting.FirstLookupMisses | src/MMUEmulator.cpp:235-243 | After such a run the first later lookup below 2^48 under an invalidated ASID misses, whatever operations come between |
| Accounting.OthersUndisturbed | src/MMUEmulator.cpp:235-243 | After such a run and an invalidation, lookups of other ASIDs below 2^48 keep hitting and missing with the same entries as without it, along any later run, full TLB or not, unless just one of the two evicts an entry of another ASID |
| Accounting.NothingIsAlike | src/MMUEmulator.cpp:108-111 | Two later runs that evict nothing never differ in that way |
| Accounting.IsolationExact | src/MMUEmulator.cpp:235-243 | For a canonical guest, invalidating the ASID of a query makes its lookup miss after every run if and only if the address is below 2^48 or the ASID is 0xFFFF |
| Accounting.IsolationAnyRun | src/MMUEmulator.cpp:235-243 | With no discipline on addresses that holds after every run if and only if the ASID is 0xFFFF, or is 0 and the address is below 2^48 |
| Accounting.SurvivesInvalidation | src/MMUEmulator.cpp:235-243 | After a single translation under ASID b from an empty TLB, invalidating a leaves a hit for a if and only if or-ing the top address bits into both ASIDs gives one value |
| Accounting.TopAddressesIgnoreAsid | src/MMUEmulator.cpp:73 | Where the top sixteen address bits are ones the key does not depend on the ASID |
| Accounting.InvalidateVaExact | src/MMUEmulator.cpp:230-233 | Below 2^48 invalidating an address clears the lookups of one page under one ASID and no other |
| MMUEmulator.MMUEmulator.TranslateWithAttributes | src/MMUEmulator.cpp:69-117 | The new state is the value model's with some legal victim; result and all eight region fields are its own; a failure leaves region and TLB |
| MMUEmulator.MMUEmulator.Translate | src/MMUEmulator.cpp:64-67 | The same without the region |
| MMUEmulator.MMUEmulator.AnswerFrom | src/MMUEmulator.cpp:77-87 | A hit writes six region fields from the entry, keeps the other two, and its sum does not wrap |
| MMUEmulator.MMUEmulator.Store | src/MMUEmulator.cpp:96-114 | Some live entry makes room when the TLB is full, and the new entry is stored under the key |
| MMUEmulator.MMUEmulator.NewEntry | src/MMUEmulator.cpp:97-106 | Both masked addresses are the region's, rounded down to its size |
| MMUEmulator.MMUEmulator.constructor | src/MMUEmulator.cpp:10-13 | All registers and counters 0, TLB empty |
| MMUEmulator.MemoryRegion.constructor | include/acheronarm64/MMUEmulator.hpp:59-62 | The default region |
| MMUEmulator.MMUEmulator.WalkPageTables | src/MMUEmulator.cpp:119-138 | One walk counted, one fault counted exactly when the arithmetic walk faults, the region written exactly on success |
| MMUEmulator.MMUEmulator.WalkLevel | src/MMUEmulator.cpp:140-163 | The masks and shifts compute the arithmetic walk, no table address wraps, and a fault is counted once through the recursion |
| MMUEmulator.MMUEmulator.FinishWalk | src/MMUEmulator.cpp:165-203 | A leaf fills all eight region fields and the sum does not wrap; a leaf at level 4 is one fault |
| MMUEmulator.MMUEmulator.TlbInvalidateAsid | src/MMUEmulator.cpp:235-243 | The erasing loop, in any visiting order, leaves exactly the other entries |
| MMUEmulator.MMUEmulator.TlbInvalidateVa | src/MMUEmulator.cpp:230-233 | The entry under the computed key is gone, the rest stays |
| MMUEmulator.MMUEmulator.TlbInvalidateAll | src/MMUEmulator.cpp:245-247 | The TLB is empty |
| MMUEmulator.MMUEmulator.SetTtbr0 | src/MMUEmulator.cpp:21-24 | Register stored, TLB flushed, nothing else changed |
| MMUEmulator.MMUEmulator.SetTtbr1 | src/MMUEmulator.cpp:26-29 | Register stored, TLB flushed, nothing else changed |
| MMUEmulator.MMUEmulator.SetTcr | src/MMUEmulator.cpp:31-34 | Register stored, TLB flushed, nothing else changed |
| MMUEmulator.MMUEmulator.VaInTtbr0 | src/MMUEmulator.cpp:50-55 | The 64-bit shift gives the range edge 2^(64-T0SZ) |
| MMUEmulator.MMUEmulator.VaInTtbr1 | src/MMUEmulator.cpp:57-62 | The 64-bit shift gives the range edge 2^(64-T1SZ) |
| MMUEmulator.MMUEmulator.ResetStats | include/acheronarm64/MMUEmulator.hpp:244 | The four counters become 0, nothing else changes |
| MMUEmulator.PageTableDescriptor.SetOutputAddress | include/acheronarm64/MMUEmulator.hpp:140-142 | The frame number is the address divided by 4096, modulo 2^36 |
| MMUEmulator.PageTableDescriptor.GetOutputAddress | include/acheronarm64/MMUEmulator.hpp:136-138 | The shift gives the frame number times 4096 |
| MMUEmulator.MMUEmulator.GetT0sz | include/acheronarm64/MMUEmulator.hpp:267 | The mask gives the low six bits |
| MMUEmulator.MMUEmulator.GetT1sz | include/acheronarm64/MMUEmulator.hpp:268 | Shift and mask give bits 21 to 16 |
| MMUEmulator.IndexBits | src/MMUEmulator.cpp:145-146 | Shift and mask give the 9-bit index of the level's span |
| SystemRegisters.LastWriteWins | src/ARM64SystemRegisters.cpp:260-372 | On every run of MSR, MRS and exception entry each encoding reads as the last value stored under it, or as before the run |
| SystemRegisters.IdentificationFixed | src/ARM64SystemRegisters.cpp:295-301 | MPIDR_EL1 and MIDR_EL1 keep their reset values on every run from reset |
| SystemRegisters.MrsAfterMsr | src/ARM64SystemRegisters.cpp:197-240 | After an MSR of either form and calls that store nothing under the same encoding, MRS delivers the value carried if and only if the register is writable or read as that value before; an encoding without a register delivers 0 |
| SystemRegisters.ExceptionBracket | src/ARM64SystemRegisters.cpp:242-258 | After an exception entry and any calls, each of ELR, ESR and FAR still holds its argument if the calls store nothing under that register's encoding |
| SystemRegisters.MsrInNumbers | src/ARM64SystemRegisters.cpp:202-215 | By the five numbers in the instruction, each cut to a byte, an MSR of either form sets the one named field of the eight and nothing else |
| SystemRegisters.MrsInNumbers | src/ARM64SystemRegisters.cpp:227-239 | By the same numbers MRS delivers the named field of the ten, and 0 for all others |
| SystemRegisters.EntryInFields | src/ARM64SystemRegisters.cpp:243-246 | An exception entry sets exactly those three fields |
| SystemRegisters.CallsCommute | src/ARM64SystemRegisters.cpp:309-363 | Two calls commute on the file if and only if they never store different values under one encoding |
| SystemRegisters.SystemRegisterEmulator.WriteSystemRegister | src/ARM64SystemRegisters.cpp:309-372 | True always; every encoding reads as before except a writable target, which reads the value |
| SystemRegisters.SystemRegisterEmulator.ReadSystemRegister | src/ARM64SystemRegisters.cpp:260-307 | The register the encoding names, or nothing |
| SystemRegisters.SystemRegisterEmulator.EmulateMSR | src/ARM64SystemRegisters.cpp:197-216 | The named field, by the instruction's own numbers modulo 256, takes the register or immediate value and no other changes; success exactly for the two MSR forms |
| SystemRegisters.SystemRegisterEmulator.EmulateMRS | src/ARM64SystemRegisters.cpp:218-240 | The file stays; exactly one general register receives the field named by the instruction's numbers modulo 256, or 0; success exactly for MRS |
| SystemRegisters.SystemRegisterEmulator.HandleExceptionEntry | src/ARM64SystemRegisters.cpp:242-253 | The ELR, ESR and FAR fields take the three arguments in that order, every other field stays |
| SystemRegisters.SystemRegisterEmulator.HandleExceptionReturn | src/ARM64SystemRegisters.cpp:255-258 | The value that ELR_EL1 reads as |
| SystemRegisters.SystemRegisterEmulator.constructor | src/ARM64SystemRegisters.cpp:181-183 | A new emulator holds the reset values |
| SystemRegisters.SystemRegisterEmulator.Reset | include/acheronarm64/ARM64SystemRegisters.hpp:280-291 | All ten reset values |
| Sessions.Serve | src/MMUEmulator.cpp:21-117 | A sequence of calls on one object in any coherent state, disciplined and defined, returns the answers of the machine without a TLB |
| Sessions.PowerOnAndServe | src/MMUEmulator.cpp:10-117 | On a new object any guest that translates no stale key, and only while no page is divided, gets exactly the answers of the walk |
| Sessions.Perform | src/MMUEmulator.cpp:21-117 | Each call on the object is the step of the value model with the object's own victim |
| Sessions.Execute | src/ARM64SystemRegisters.cpp:197-253 | A sequence of MSR, MRS and exceptions on one register-file object leaves every encoding with the last value stored under it |
| Sessions.Obey | src/ARM64SystemRegisters.cpp:197-253 | Each command on the object is one step of the history model, with the register operand read from the array |

## Left out

- Instruction decoding and register names: finite tables on which code and tests disagree, so there is no intended round trip.
- The split of a 64-bit word into descriptor fields: memory holds the field record, so every result holds for any layout.
- The loops in `Sessions.Serve` and `Sessions.Execute` stand for the program around the emulators; the source has no such members.
- What a C++ program does after undefined behaviour: the value model stays put and answers `Crash`; the class requires that it does not happen.
- The fields of page-table descriptors that the walk never reads (`ng`, `ns`, the stage 2 view) and its unused `is_block` and `is_page`.
- `get_ttbr0_mask`, `get_ttbr1_mask`, `is_mmu_enabled`, `getBaseAddress`, `setBaseAddress` and the field views of the register unions: nothing modelled here calls them.
- The meaning of the memory type and permission tables: modelled as written, no property beyond passing through the TLB unchanged.
- Writes through the reference that `getState` returns: runs of the register file are calls of the emulator's own methods.
- Callbacks of MSR and MRS: the general registers are an array indexed by a byte, read and written directly.
- Console output, the command line tool, and the hypervisor examples.
