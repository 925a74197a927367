# Verified model of the kexec loader

kexec boots one kernel from another. Before the jump it decides where every piece of the new kernel goes in physical
memory, links a small relocatable object (purgatory) that runs between the two kernels, and seals everything it
placed with a SHA-256 digest that purgatory computes again after the jump. This project models that loader and proves
what it keeps, in Dafny. `dafny verify dfyconfig.toml` checks all of it.

| files | what they model |
|---|---|
| `Bits.dfy`, `Buffers.dfy` | unsigned words, the alignment masks, little-endian words, `memcpy` |
| `Memory.dfy`, `Holes.dfy`, `Kexec.dfy` | the physical memory allocator and the segment table |
| `ElfLayout.dfy`, `ElfRel.dfy` | the two-pass layout, the relocating linker and the i386 relocations |
| `Reloc.dfy` | the PowerPC and x86-64 relocations |
| `Dol.dfy` | DOL segments: overlap merging in place, and the section-copy loop |
| `Primes.dfy`, `Fips180.dfy`, `Fips180Example.dfy`, `Sha256.dfy` | SHA-256 as FIPS 180-2 defines it, its printed example, and the streaming implementation |
| `Seal.dfy`, `Purgatory.dfy` | both sides of the sealing protocol |
| `Checksum.dfy`, `BootNotes.dfy` | the Internet checksum, the boot-note writer and the note walk |
| `CliWords.dfy` | the command-line tokenizer and joiner of libcli |
| `Printf.dfy` | the number conversions of purgatory's printf |

## How to read it

The code that changes things in place is imperative: `KexecInfo` owns the growing segment table, `Context` the hash
state, and the loops over arrays stay loops. Each method is proved against a specification that does not mention its
steps, and lemmas say what the specification means.

* **Allocator.** `FreeHole` says, without gaps, when a base is free: aligned, and base..base+size one run of RAM clear
  of all segments. `LocateHole` returns the outermost such base, or fails exactly when there is none. The hole is
  searched with the unrounded size while the entry occupies whole pages; `RoundedHoleIsClear` is the argument that
  this is safe, and `BuffersStayDisjoint` and `MixedRunStaysPlaced` carry it through every run of calls.
* **Linker.** `Offset` gives each section's place. Pass 1 measures its total, pass 2 ends exactly there, and
  `BaseEquivariance` compares the images for two load addresses.
* **Seal.** `Image` is the protected memory; `UpdatePurgatory` stores its digest, and `IntactImageAccepted` shows that
  purgatory's region-by-region sweep of memory yields the same bytes.
* **Plain terms.** Where a method is proved against a function, lemmas say what the function means without it:
  `LinkedWord` and `LinkedByte` for every byte of a linked buffer, `EntriesAreMade` for every table entry,
  `AbcDigest` and `RoundConstants` for SHA-256, `QuotedRoundTrip` for quoted words.
* **DOL.** `Converted` is what the merged segments must be; `Filled` says which section each byte comes from.

## Assumptions and places where the code decides

* `unsigned long` has 64 bits in the allocator, the linker and the x86-64 relocations, and 32 bits in the PowerPC ones
  (DOL, ADDR16, REL24). A value typed `ulong` is proved not to wrap wherever it is computed; where the code relies on
  wrapping (`add_segment`, the last address of a segment, relocated words, checksums, the SHA-256 byte count) the
  wrap is written out.
* RAM ranges are sorted, strictly separated as inclusive intervals, and end at least a page below the top of the
  address space; page size and alignments are powers of two; rounding an address up does not wrap.
* Gap ends are inclusive and `locate_hole` compares sizes with end minus start, so a hole needs one free address past
  its last byte. `FreeHole` says so, and `ExactFitIsRefused` gives memory that fits the request exactly and is refused.
* `locate_hole` reserves `memory_ranges + nr_segments - 1` gaps. The proved bound is one more, `GapBoundIsTight` attains
  it, and `ReservedGapsSuffice` says exactly when the reserved entries are enough: one range that is not RAM always
  suffices. The model's array has the proved size.
* Rounding up to whole pages may take an entry past the requested maximum, as `LimitPassed` shows. `EntryWithinLimit`
  and `LimitIsKept` say exactly when it does not; a maximum that ends a page never is passed.
* A 32-bit `long` cannot hold every difference of two segment ends. `MergeIsUnion` says exactly when one DOL merge
  keeps all memory, `PairKeepsMemory` when a run on two segments does, and `FarEndsLoseMemory` is a run that loses some.
  For longer tables `OrderDecides` shows that no condition on the segments alone is exact; what holds without any
  condition, and what holds when ends inside one run of memory are near, are stated apart.
* `sha256_update` adds at most one carry to the high word of the count, so the count is right exactly while total[0] plus
  the length stays below 2^33, as for every length below 2^32.
* `%d` prints `LONG_MIN` with characters that are not digits, negating a checksum does not restore 0xFFFF, and
  joining and splitting words is not the identity for every list of words: each of the round trips is an equivalence.
* A quote of either kind starts a new word wherever it stands, so double quotes do not protect a single quote:
  `QuotedRoundTrip` holds for words without any quote and for no others, and `OtherQuoteTakesOver` says what happens.
* x86-64 PC32 fields have no overflow check; `RelativeReaches` says exactly when they reach their target. PowerPC
  REL24 is accepted for targets that are not word aligned and then branches elsewhere; `BranchReaches` says exactly when.
* purgatory's `memcmp` never advances its pointers, so only the first byte of the digest decides. `VerifyDigest`
  states that; the proved theorem is that an intact image is accepted.

## Model

| member | source | states |
|---|---|---|
| Bits.AlignDown | kexec-tools/kexec/kexec.c:253 | masking with the complement of align - 1 gives a multiple of align, at most x and less than align below it |
| Bits.AlignUp | kexec-tools/kexec/kexec.c:235 | the mask idiom gives a multiple of align at least x and less than align above it, and 0 when that would wrap |
| Bits.AlignUpLeast | kexec-tools/kexec/kexec.c:235 | no multiple of align at or above x lies below the result |
| Bits.AlignDownGreatest | kexec-tools/kexec/kexec.c:253 | the aligned end is the greatest multiple not above it |
| Bits.LittleAt | kexec-tools/kexec/kexec.c:484-488 | byte i of a little-endian word has weight 256^i |
| Memory.FillExact | kexec-tools/kexec/kexec.c:202-219 | the gaps of one RAM range cover exactly its addresses that lie in no segment |
| Memory.GapsExact | kexec-tools/kexec/kexec.c:194-220 | an address lies in a computed gap if and only if it is RAM and in no segment |
| Memory.GapsShape | kexec-tools/kexec/kexec.c:189-220 | gaps ascend and are disjoint, number at most ranges plus segments, lie each in one range and end only at its end or at a segment |
| Memory.ReservedGapsSuffice | kexec-tools/kexec/kexec.c:190-220 | the gaps fit the ranges plus segments minus one entries reserved for them if and only if some range is not RAM, or some segment touches the edge of its range or the next segment |
| Memory.GapBoundIsTight | kexec-tools/kexec/kexec.c:190-191 | a table and a range for which they do not fit: one gap more than reserved |
| Holes.GapHolesAreFreeHoles | kexec-tools/kexec/kexec.c:222-256 | a base fits a clipped gap if and only if it is a free hole in memory |
| Holes.ExactFitIsRefused | kexec-tools/kexec/kexec.c:247-248 | RAM of exactly the requested size, all of it usable, holds no hole |
| Holes.PickOneMore | kexec-tools/kexec/kexec.c:222-256 | looking at one more, higher gap keeps the choice outermost: least bottom-up, greatest top-down |
| Holes.PickLower | kexec-tools/kexec/kexec.c:249-251 | stopping at the first gap that fits loses nothing: later gaps hold no lower base |
| Holes.PickedIsBest | kexec-tools/kexec/kexec.c:221-267 | the gap search returns the best free hole, or ULONG_MAX exactly when no free hole exists, for every size including 0 |
| Holes.BestHoleUnique | kexec-tools/kexec/kexec.c:163-268 | the best hole is determined by table and request |
| Holes.RoundedHoleIsClear | kexec-tools/kexec/kexec.c:288-332 | a hole found with the unrounded size is still clear of every segment after rounding up to whole pages |
| Holes.WrappedPages | kexec-tools/kexec/kexec.c:286-304 | rounding and adding in wrapping words accepts exactly the entries whose whole pages are usable RAM |
| Holes.EntryWithinLimit | kexec-tools/kexec/kexec.c:288-332 | an entry ends within the requested maximum if and only if its unrounded end is within the last page boundary there |
| Holes.LimitIsKept | kexec-tools/kexec/kexec.c:288-332 | no page-aligned base takes an entry past the maximum if and only if the last page of the size is filled at least as far as the last page of the maximum |
| Holes.LimitPassed | kexec-tools/kexec/kexec.c:288-332 | a request whose best hole is below the maximum and whose entry ends beyond it |
| Kexec.KexecInfo.ValidMemoryRange | kexec-tools/kexec/kexec.c:83-105 | true exactly when the addresses are one run inside one RAM range and mem_min..mem_max |
| Kexec.KexecInfo.Least | kexec-tools/kexec/kexec.c:136-143 | the index of a least address among the entries from i on |
| Kexec.KexecInfo.Arrange | kexec-tools/kexec/kexec.c:134-149 | the table becomes a permutation of itself sorted by address |
| Kexec.KexecInfo.Overlaps | kexec-tools/kexec/kexec.c:150-160 | for a sorted table, the scan succeeds exactly when each entry ends before all later ones start |
| Kexec.KexecInfo.SortSegments | kexec-tools/kexec/kexec.c:129-161 | a sorted permutation, and result 0 if and only if all entries are pairwise disjoint |
| Kexec.KexecInfo.FillRange | kexec-tools/kexec/kexec.c:198-219 | the inner merge loop appends the specified gaps of one range and leaves j at the first segment beyond it |
| Kexec.KexecInfo.FreeRanges | kexec-tools/kexec/kexec.c:189-220 | the merge fills the array with exactly the specified gaps and stays inside the proved bound |
| Kexec.KexecInfo.Try | kexec-tools/kexec/kexec.c:222-256 | one turn of the search loop, with its clipping and alignment, moves the base as specified |
| Kexec.KexecInfo.Pick | kexec-tools/kexec/kexec.c:221-267 | the outermost base over all gaps, or ULONG_MAX; the final check against hole_max cannot fire |
| Kexec.KexecInfo.LocateHole | kexec-tools/kexec/kexec.c:163-268 | dies exactly for hole_end 0; else the least or greatest free hole, or ULONG_MAX exactly when there is none |
| Kexec.KexecInfo.AddSegment | kexec-tools/kexec/kexec.c:270-317 | succeeds exactly for empty requests and page-aligned bases with usable whole pages; appends one entry with the caller's buffer and base, its size cut to memsz, in the least whole pages, and changes nothing else |
| Kexec.KexecInfo.AddBuffer | kexec-tools/kexec/kexec.c:319-339 | succeeds exactly when the direction is given, the table is disjoint, and there is a best hole whose pages are usable; sorts the table and appends the entry with the caller's buffer there, or nothing for size 0 |
| Kexec.KexecInfo.CheckTable | kexec-tools/kexec/kexec.c:570-592 | my_load goes on exactly when every entry is valid memory and no two overlap |
| Kexec.LastAddress | kexec-tools/kexec/kexec.c:107-114 | the wrapped last address is usable exactly for a non-empty segment that does not wrap |
| Kexec.CallKeeps | kexec-tools/kexec/kexec.c:270-339 | each call keeps every entry valid and adds its own entry only; add_buffer leaves a disjoint table |
| Kexec.EntryKeepsLimit | kexec-tools/kexec/kexec.c:319-339 | the entry add_buffer appends stays within buf_max exactly when its unrounded end is within the last page boundary there, and always if buf_max ends a page |
| Kexec.BuffersStayDisjoint | kexec-tools/kexec/kexec.c:319-339 | after every run of add_buffer calls all entries are non-empty, page aligned, inside RAM and the limits, and pairwise disjoint; nothing placed is lost |
| Kexec.MixedRunStaysPlaced | kexec-tools/kexec/kexec.c:270-339 | after every mix of add_segment and add_buffer all entries are valid and nothing placed is lost |
| Kexec.EntriesAreMade | kexec-tools/kexec/kexec.c:270-339 | after every mix of calls, each entry is one that some call made: its buffer, its base, its size cut to what it asked for, in the least whole pages |
| Kexec.EntriesAreHeld | kexec-tools/kexec/kexec.c:278-309 | if every caller's buffer holds the bytes it promises, every entry's does |
| Kexec.BuffersInPlainTerms | kexec-tools/kexec/kexec.c:319-339 | the run law of add_buffer in plain arithmetic on addresses |
| Kexec.LoadableIffDisjoint | kexec-tools/kexec/kexec.c:570-592 | whatever calls built the table, my_load accepts it if and only if it is disjoint |
| Kexec.LoadableMeans | kexec-tools/kexec/kexec.c:570-592 | what my_load asks, in plain arithmetic on addresses |
| Kexec.ValidMeans | kexec-tools/kexec/kexec.c:83-114 | what a valid segment is, in plain arithmetic on addresses |
| ElfLayout.OffsetInBounds | kexec-tools/kexec/kexec-elf-rel.c:210-291 | every loaded section is aligned at its run-time address, data inside the buffer and bss between buffer and total size |
| ElfLayout.SectionsApart | kexec-tools/kexec/kexec-elf-rel.c:259-291 | no two loaded sections share an address |
| ElfLayout.LayoutIsTight | kexec-tools/kexec/kexec-elf-rel.c:210-291 | the first section of its kind lies at the start of its part, and the last one ends it |
| ElfLayout.NextIsTight | kexec-tools/kexec/kexec-elf-rel.c:226-242 | the next section of its kind begins less than its alignment behind the one before |
| ElfLayout.BssIsTight | kexec-tools/kexec/kexec-elf-rel.c:247-250 | bss begins less than its greatest alignment behind the data |
| ElfLayout.MaxAlignIsOne | kexec-tools/kexec/kexec-elf-rel.c:211-237 | the greatest alignment is that of some section of the kind, or 1 |
| ElfRel.Measure | kexec-tools/kexec/kexec-elf-rel.c:210-250 | pass 1 computes the layout's alignment, buffer size, bss start and total size |
| ElfRel.NextPlace | kexec-tools/kexec/kexec-elf-rel.c:271-289 | aligning pass 2's running address gives the offset pass 1 reckoned with |
| ElfRel.Place | kexec-tools/kexec/kexec-elf-rel.c:259-291 | pass 2 gives each section its address, copies the data, and ends exactly at base plus the sizes pass 1 measured |
| ElfRel.CopiedIntact | kexec-tools/kexec/kexec-elf-rel.c:268-280 | after pass 2 the bytes of every section with file data are intact at its place |
| ElfRel.FindEntry | kexec-tools/kexec/kexec-elf-rel.c:191-208 | the first loaded code section that contains the entry point |
| ElfRel.EntryKeepsItsByte | kexec-tools/kexec/kexec-elf-rel.c:292-297 | the moved entry point names, in the copied buffer, the byte it named in its section |
| ElfRel.EntryMoves | kexec-tools/kexec/kexec-elf-rel.c:191-297 | the entry point moves as the first loaded code section that holds it does, and stays if there is none |
| ElfRel.ApplyElfRel | kexec-tools/kexec/arch/i386/kexec-elf-rel-x86.c:21-35 | adds the value, or value minus address, into the word at location modulo 2^32; dies exactly on other types |
| ElfRel.RelocateOne | kexec-tools/kexec/kexec-elf-rel.c:337-395 | dies exactly for undefined, common, out-of-range or unknown relocations; else makes the one specified patch |
| ElfRel.AppliesExactly | kexec-tools/kexec/kexec-elf-rel.c:366-394 | which symbols and types a relocation dies of, by number |
| ElfRel.Relocate | kexec-tools/kexec/kexec-elf-rel.c:299-396 | dies exactly when a section number is out of range or some relocation does not apply; else applies all patches in table order |
| ElfRel.EachAdds | kexec-tools/kexec/arch/i386/kexec-elf-rel-x86.c:24-30 | relocations that do not overlap each add to their own word, whatever their order |
| ElfRel.Untouched | kexec-tools/kexec/kexec-elf-rel.c:299-396 | a byte that no relocation covers keeps its value |
| ElfRel.PatchMoves | kexec-tools/kexec/kexec-elf-rel.c:384-394 | moving the load address by d leaves a patch in place and changes the added value by d times how often the base enters it |
| ElfRel.BaseEquivariance | kexec-tools/kexec/kexec-elf-rel.c:259-395 | loading at another base, into a buffer with any other contents, changes each relocated word by that multiple of the distance modulo 2^32 and no other byte of a section |
| ElfRel.PaddingIsRaw | kexec-tools/kexec/kexec-elf-rel.c:253-280 | bytes between sections are what malloc left there |
| ElfRel.LoadedSymbols | kexec-tools/kexec/arch/i386/kexec-elf-rel-x86.c:21-35 | with symbols in loaded sections, PC32 words of the two loads are identical and 32 words differ by exactly the distance |
| ElfRel.Link | kexec-tools/kexec/kexec-elf-rel.c:259-397 | from a chosen address on: the table gets its addresses, the buffer its image, the entry its place; dies exactly when relocation does |
| ElfRel.LinkedWord | kexec-tools/kexec/kexec-elf-rel.c:348-395 | for one load: each relocated word of the linked buffer is the word of the file there, plus st_value, plus the new address of the symbol's section, plus the addend for RELA, minus the new address of the place for PC32, modulo 2^32 |
| ElfRel.LinkedByte | kexec-tools/kexec/kexec-elf-rel.c:259-395 | for one load: every other byte of a section is that of the file |
| ElfRel.LinkedTable | kexec-tools/kexec/kexec-elf-rel.c:259-291 | for one load: only addresses of loaded sections have changed, to aligned places inside the block, data before bss, no two sharing an address |
| ElfRel.ElfRelLoad | kexec-tools/kexec/kexec-elf-rel.c:171-400 | succeeds exactly when add_buffer can place the layout's total size at its alignment and every relocation applies; then the object is linked there, between min and max and below 4 GB |
| PpcReloc.HalvesRecover | kexec-tools/kexec/arch/ppc/kexec-elf-rel-ppc.c:29-39 | the HA half shifted up plus the sign-extended LO half is the value modulo 2^32 |
| PpcReloc.FieldMasks | kexec-tools/kexec/arch/ppc/kexec-elf-rel-ppc.c:49-52 | the two masks split a word into its 24-bit field and everything else |
| Fields.SignedFields | kexec-tools/kexec/arch/ppc/kexec-elf-rel-ppc.c:42-44 | the signed value of a field is the one number of its range that agrees with it modulo its width |
| Fields.BigIsReversed | kexec-tools/kexec/arch/ppc/kexec-elf-rel-ppc.c:24-57 | a word stored on the big-endian target is the little-endian one backwards |
| PpcReloc.BranchReaches | kexec-tools/kexec/arch/ppc/kexec-elf-rel-ppc.c:42-53 | opcode and flag bits stay; the branch displacement is value minus address if and only if that is in reach and word aligned |
| PpcReloc.ApplyElfRel | kexec-tools/kexec/arch/ppc/kexec-elf-rel-ppc.c:20-64 | dies exactly on unknown types and branches out of reach; else only the field changes, and it means value, for REL24 if the distance is word aligned |
| X86_64Reloc.OverflowIsUnencodable | kexec-tools/kexec/arch/x86_64/kexec-elf-rel-x86_64.c:72-81 | the re-read checks refuse exactly the values that no field of that width can denote |
| X86_64Reloc.RelativeReaches | kexec-tools/kexec/arch/x86_64/kexec-elf-rel-x86_64.c:82-84 | the unchecked PC32 field reaches value if and only if the distance fits 32 signed bits |
| X86_64Reloc.ApplyElfRel | kexec-tools/kexec/arch/x86_64/kexec-elf-rel-x86_64.c:60-93 | dies exactly on unknown types and unencodable values; accepted fields widen back to the full value, other bytes stay |
| Dol.MergeIsUnion | kexec-tools/kexec/arch/ppc/kexec-dol-ppc.c:214-234 | merging two overlapping segments keeps exactly their memory if and only if the difference of their ends fits a 32-bit long |
| Dol.FarMergeEndsEarly | kexec-tools/kexec/arch/ppc/kexec-dol-ppc.c:213-234 | otherwise the merged segment ends where the earlier of the two did |
| Dol.RunIgnoresUnused | kexec-tools/kexec/arch/ppc/kexec-dol-ppc.c:192-238 | unused entries behind the others change nothing about a run |
| Dol.PairKeepsMemory | kexec-tools/kexec/arch/ppc/kexec-dol-ppc.c:192-238 | a run on a table of two segments and any number of unused entries keeps all their memory if and only if they do not overlap or the difference of their ends fits |
| Dol.PairMerges | kexec-tools/kexec/arch/ppc/kexec-dol-ppc.c:192-238 | a run on two overlapping segments leaves one at the place and start of the lower one with the sections of both |
| Dol.FarEndsLoseMemory | kexec-tools/kexec/arch/ppc/kexec-dol-ppc.c:192-238 | a run on two segments and any number of unused entries that loses an address |
| Dol.OrderDecides | kexec-tools/kexec/arch/ppc/kexec-dol-ppc.c:192-238 | of the same three segments, before any number of unused entries, one order keeps all memory and another does not: no condition on the segments alone is exact |
| Dol.MergeKeepsTidy | kexec-tools/kexec/arch/ppc/kexec-dol-ppc.c:213-234 | every merge keeps page alignment and disjoint bitmaps and uses up one live segment |
| Dol.MergeAddsNothing | kexec-tools/kexec/arch/ppc/kexec-dol-ppc.c:213-234 | no merge covers an address that was not covered, not even when the 32-bit long overflows |
| Dol.MergeKeepsSections | kexec-tools/kexec/arch/ppc/kexec-dol-ppc.c:213-234 | every merge keeps the set of owned sections |
| Dol.MergeKeepsMemory | kexec-tools/kexec/arch/ppc/kexec-dol-ppc.c:213-234 | a merge whose end difference fits loses no address |
| Dol.MergeKeepsOwners | kexec-tools/kexec/arch/ppc/kexec-dol-ppc.c:213-234 | such a merge keeps every section inside the segment that owns its bit |
| Dol.SwallowStaysClear | kexec-tools/kexec/arch/ppc/kexec-dol-ppc.c:227-234 | a segment that swallows an earlier one overlaps nothing that both were clear of |
| Dol.Scan | kexec-tools/kexec/arch/ppc/kexec-dol-ppc.c:204-236 | the inner loop continues the specified run, and tells exactly whether segment i was deleted and a live segment used up |
| Dol.FixSeparates | kexec-tools/kexec/arch/ppc/kexec-dol-ppc.c:192-238 | the run ends, for every tidy table, with segments pairwise apart, every section owned as before, and no new address |
| Dol.FixKeepsMemory | kexec-tools/kexec/arch/ppc/kexec-dol-ppc.c:192-238 | if ends inside one unbroken run of memory are near, no address is lost and sections stay inside their owners |
| Dol.FixIsIdle | kexec-tools/kexec/arch/ppc/kexec-dol-ppc.c:192-238 | a table without overlaps is left as it is |
| Dol.FixOverlaps | kexec-tools/kexec/arch/ppc/kexec-dol-ppc.c:192-238 | for every page-aligned table with disjoint bitmaps: terminates although it resets i, ends pairwise apart and page aligned, with the same sections and no new address; with near ends also the same memory, each section inside its owner |
| Dol.LoadSegments | kexec-tools/kexec/arch/ppc/kexec-dol-ppc.c:157-190 | n is the number of sections in use; the first n entries are one page-aligned segment for each of them in order, the rest unused; their memory is exactly the pages of the sections, their bits a partition |
| Dol.InUseAreSections | kexec-tools/kexec/arch/ppc/kexec-dol-ppc.c:166-187 | each entry of that table is the segment of one section in use |
| Dol.SectionsAreInUse | kexec-tools/kexec/arch/ppc/kexec-dol-ppc.c:166-187 | each section in use has its segment in that table |
| Dol.InUseIsOrdered | kexec-tools/kexec/arch/ppc/kexec-dol-ppc.c:166-187 | the entries are in the order of their sections |
| Dol.PagesAreTight | kexec-tools/kexec/arch/ppc/kexec-dol-ppc.c:87-91 | the pages of a section begin and end less than a page from it |
| Dol.RawSegment | kexec-tools/kexec/arch/ppc/kexec-dol-ppc.c:171-181 | the segment computed in 32-bit words is the whole pages of its section if and only if those end below 4 GB; else its end is 0 |
| Dol.TopPageEscapes | kexec-tools/kexec/arch/ppc/kexec-dol-ppc.c:80-91 | a segment is seen to overlap anything, be it itself, if and only if its pages end below 4 GB |
| Dol.Convert | kexec-tools/kexec/arch/ppc/kexec-dol-ppc.c:386-390 | for every header: segments pairwise apart and page aligned, their bits a partition of the sections in use, no address beyond the pages of those; with near ends exactly their pages, each section inside its owner |
| Dol.PageIsNeeded | kexec-tools/kexec/arch/ppc/kexec-dol-ppc.c:386-390 | every page of a converted segment holds an address of one of its sections |
| Dol.Lowest | kexec-tools/kexec/arch/ppc/kexec-dol-ppc.c:426-440 | the search finds the section still to do that comes first by address, then index |
| Dol.CopySections | kexec-tools/kexec/arch/ppc/kexec-dol-ppc.c:422-449 | terminates; every covered byte comes from the covering section of the segment last in address and index order, all other bytes stay |
| Dol.CoveringSectionIsOwned | kexec-tools/kexec/arch/ppc/kexec-dol-ppc.c:386-440 | after conversion, a section that covers an address of a segment belongs to that segment |
| Dol.LastOfHeader | kexec-tools/kexec/arch/ppc/kexec-dol-ppc.c:422-449 | so the last section of the segment at an address is the last of the whole header there |
| RoundLogic.F0IsMaj | kexec-tools/util_lib/sha256.c:87 | the rewritten F0 is Maj of section 4.1.2 of FIPS 180-2 |
| RoundLogic.F1IsCh | kexec-tools/util_lib/sha256.c:88 | the rewritten F1 is Ch |
| RoundLogic.S0Is | kexec-tools/util_lib/sha256.c:78-81 | S0, with SHR and ROTR written out, is the small sigma 0 of section 4.1.2 |
| RoundLogic.S1Is | kexec-tools/util_lib/sha256.c:78-82 | S1 is the small sigma 1 |
| RoundLogic.S2Is | kexec-tools/util_lib/sha256.c:78-84 | S2 is the big sigma 0 |
| RoundLogic.S3Is | kexec-tools/util_lib/sha256.c:78-85 | S3 is the big sigma 1 |
| RoundLogic.GetAssembles | kexec-tools/util_lib/sha256.c:25-31 | GET_UINT32 is the big-endian value of four bytes |
| RoundLogic.ChChooses | kexec-tools/util_lib/sha256.c:88 | bit by bit, Ch is y where x has a 1 and z where it has a 0 |
| RoundLogic.MajDecides | kexec-tools/util_lib/sha256.c:87 | bit by bit, Maj is x where x and y agree and z elsewhere |
| RoundLogic.BigSigma0At | kexec-tools/util_lib/sha256.c:84 | bit i is the exclusive or of the bits 2, 13 and 22 places up, going round |
| RoundLogic.BigSigma1At | kexec-tools/util_lib/sha256.c:85 | bit i is the exclusive or of the bits 6, 11 and 25 places up, going round |
| RoundLogic.SmallSigma0At | kexec-tools/util_lib/sha256.c:81 | bit i is the exclusive or of the bits 7 and 18 places up, going round, and 3 places up |
| RoundLogic.SmallSigma1At | kexec-tools/util_lib/sha256.c:82 | bit i is the exclusive or of the bits 17 and 19 places up, going round, and 10 places up |
| Fips180.ConstantsAreRoots | kexec-tools/util_lib/sha256.c:46-175 | the initial words are the fractional square roots, and the round constants the fractional cube roots, of the listed primes |
| Primes.RowsListPrimes | kexec-tools/util_lib/sha256.c:46-175 | the listed numbers are exactly the primes up to 311 |
| Primes.RowsAscend | kexec-tools/util_lib/sha256.c:46-175 | they are listed in ascending order, so they are the first 64 |
| Primes.NthPrime | kexec-tools/util_lib/sha256.c:46-175 | entry i of row r is the prime with exactly 8 r + i primes below it |
| Fips180.RoundConstants | kexec-tools/util_lib/sha256.c:112-175 | the constant of turn t is the fractional cube root of the prime with exactly t primes below it |
| Fips180.InitialWords | kexec-tools/util_lib/sha256.c:46-53 | word t of the initial hash value is the fractional square root of the prime with exactly t primes below it |
| Fips180.Big32Reads | kexec-tools/util_lib/sha256.c:33-39 | the four bytes PUT_UINT32 stores are the digits of the word to the base 256 |
| Fips180.PadReads | kexec-tools/util_lib/sha256.c:238-249 | the padded message is the message, 0x80, zeros, and the length in bits as two words |
| Fips180Example.AbcDigest | kexec-tools/util_lib/sha256.c:56-259 | the digest of "abc" is the one appendix B.1 of FIPS 180-2 prints, through all 64 turns |
| Fips180.PadFillsBlocks | kexec-tools/util_lib/sha256.c:245-249 | the padding of section 5.1.1 makes whole blocks |
| Sha256.PIsTurn | kexec-tools/util_lib/sha256.c:96-101 | the macro P on rotating registers is one turn of the shifting loop of section 6.2.2 |
| Sha256.NextWord | kexec-tools/util_lib/sha256.c:90-94 | the in-place schedule R(t) yields the message schedule of section 6.2.2 |
| Sha256.RIsMix | kexec-tools/util_lib/sha256.c:90-94 | R(t) with S0 and S1 is the rule of the message schedule |
| Sha256.FourLines | kexec-tools/util_lib/sha256.c:112-115 | four lines of rounds, with their renamed registers, are four turns |
| Sha256.Context.Starts | kexec-tools/util_lib/sha256.c:41-54 | a context that has taken in the empty message |
| Sha256.Context.Process | kexec-tools/util_lib/sha256.c:56-185 | the 64 unrolled rounds are the compression of section 6.2.2 for every state and block |
| Sha256.Context.Update | kexec-tools/util_lib/sha256.c:187-222 | for every length, the state becomes that of the message with the input appended; the byte count stays right if and only if at most one carry out of 32 bits is due |
| Sha256.SameMessageSameState | kexec-tools/util_lib/sha256.c:187-222 | byte count, hash value and live part of the buffer depend on the bytes alone, however the updates cut them up |
| Sha256.LengthField | kexec-tools/util_lib/sha256.c:238-243 | the two length words are the 64-bit bit count, big-endian |
| Sha256.PaddingIsPad | kexec-tools/util_lib/sha256.c:245-249 | the two final updates append exactly the padding of section 5.1.1 |
| Sha256.Context.Finish | kexec-tools/util_lib/sha256.c:232-259 | the digest of the bytes taken in, padded with whatever the byte count says, and with no partial block left; it is the digest of the standard if the count is right |
| Seal.HashSegment | kexec-tools/kexec/kexec.c:473-482 | buffer and zero fill in 256-byte chunks append the segment as it will lie in memory |
| Seal.OneSegment | kexec-tools/kexec/kexec.c:470-485 | a protected segment contributes its buffer, then zeros up to memsz, and one region; purgatory contributes nothing |
| Seal.InTableOrder | kexec-tools/kexec/kexec.c:463-486 | image and regions follow the table order |
| Seal.HashSegments | kexec-tools/kexec/kexec.c:463-487 | the digest of all protected memory, and its regions in table order |
| Seal.FindSymbol | kexec-tools/kexec/kexec-elf-rel.c:420-468 | the first global symbol of the name in table order, or none; dies exactly if its section number is 0 or out of range |
| Seal.SetSymbol | kexec-tools/kexec/kexec-elf-rel.c:484-507 | dies exactly on a missing symbol, a bad section, a wrong size or bss; else writes the bytes of the symbol and no others |
| Seal.SymbolAddress | kexec-tools/kexec/kexec-elf-rel.c:470-507 | the place SetSymbol writes to is the symbol's address after linking, its value behind the new address of its section |
| Seal.UpdatePurgatory | kexec-tools/kexec/kexec.c:448-490 | stores the regions, zero filled, and the digest of the memory they name; storing them changes no protected byte |
| Purgatory.Memcmp | kexec-tools/purgatory/string.c:39-53 | 0 exactly when there is nothing to compare or the first bytes agree |
| Purgatory.VerifyDigest | kexec-tools/purgatory/purgatory.c:12-40 | for regions of every size, accepts exactly when the computed digest of the sweep and the stored one agree in their first byte; for regions below 4 GB the computed digest is that of the standard |
| Purgatory.SweptIsImage | kexec-tools/purgatory/purgatory.c:20-22 | if memory holds, address by address, each protected buffer and zeros behind it, sweeping the regions yields the bytes hashed before the jump |
| Purgatory.IntactImageAccepted | kexec-tools/purgatory/purgatory.c:12-24 | the seal holds: if the protected segments, the regions and the digest are intact, the digest of the sweep equals all 32 stored bytes, although stack and data of purgatory itself have changed |
| Purgatory.VerifyIntactImage | kexec-tools/purgatory/purgatory.c:12-40 | so purgatory accepts an intact image of segments below 4 GB |
| IpChecksum.ComputeIpChecksum | kexec-tools/util_lib/compute_ip_checksum.c:50-72 | the loop computes the complement of the one's complement sum of the little-endian words |
| IpChecksum.SwapFolded | kexec-tools/util_lib/compute_ip_checksum.c:81-87 | the sum of data at an odd offset is the byte-swapped sum |
| IpChecksum.ConcatenationLaw | kexec-tools/util_lib/compute_ip_checksum.c:76-93 | add_ip_checksums of two pieces is the checksum of the whole, also after a piece of odd length |
| IpChecksum.NegationRestores | kexec-tools/util_lib/compute_ip_checksum.c:95-102 | adding a piece and its negation restores a checksum if and only if it is not 0xFFFF |
| IpChecksum.OnlyZerosGiveAllOnes | kexec-tools/util_lib/compute_ip_checksum.c:50-72 | 0xFFFF is the checksum of all-zero data and of no other |
| IpChecksum.WordChecksum | kexec-tools/util_lib/compute_ip_checksum.c:50-72 | the checksum of one little-endian word is its complement |
| IpChecksum.StoredChecksumCancels | kexec-tools/kexec/kexec-elf-boot.c:87-89 | data that holds its own checksum, computed over a zero field, has checksum 0 |
| BootNotes.CountNotes | kexec-tools/kexec/kexec-elf.c:690-699 | the first walk counts the notes of the segment, and stops where their sizes, rounded in 32-bit words, add up to |
| BootNotes.ReadNotes | kexec-tools/kexec/kexec-elf.c:690-721 | the second walk fills the table the first one sized; dies exactly when some non-empty name does not end with 0 |
| BootNotes.NamedPrefix | kexec-tools/kexec/kexec-elf.c:702-719 | a note with a name and a descriptor, each padded to four bytes, reads back, and the walk goes on right behind it |
| BootNotes.ElfBootNotes | kexec-tools/kexec/kexec-elf-boot.c:76-89 | the patched template with the command line is the specified block, its checksum taken over a zero field |
| BootNotes.FinishedBlockSumsToZero | kexec-tools/kexec/kexec-elf-boot.c:89 | the finished block has checksum 0 |
| BootNotes.BlockReadsBack | kexec-tools/kexec/kexec-elf-boot.c:76-95 | magic, size, checksum and record count read back; walking the block behind its header gives exactly the three notes written, as many as the header says, and ends exactly at b_size |
| CliWords.ParseLine | libcli/libcli.c:452-502 | the loop, which does not always advance, terminates and returns the specified words |
| CliWords.JoinWords | libcli/libcli.c:1620-1646 | the words with single blanks between them |
| CliWords.WordsAreUnquoted | libcli/libcli.c:452-502 | no word the tokenizer returns contains a quote |
| CliWords.UnquotedLineSplits | libcli/libcli.c:452-502 | a line without quotes splits only into words that survive joining |
| CliWords.RoundTrip | libcli/libcli.c:452-502 | splitting a joined line gives the words back if and only if they are few enough, free of blanks, quotes and embedded bars, with no empty word after the first |
| CliWords.QuotedRoundTrip | libcli/libcli.c:461-483 | words in quotes of either kind come back, blanks and bars included, if and only if they are few enough and contain no quote of either kind; an unclosed last quote takes the rest of the line |
| CliWords.QuoteTakesOver | libcli/libcli.c:480-484 | text right before a quote is lost |
| CliWords.OtherQuoteTakesOver | libcli/libcli.c:480-484 | a quote of the other kind inside a quoted word starts another word, and what came before it is lost |
| CliWords.QuotesAre | libcli/libcli.c:480 | the codes 34 and 39 quote, and no others |
| CliWords.BlanksSeparate | libcli/libcli.c:461-497 | between plain words, exactly the codes 9 to 13 and 32 separate |
| CliWords.BarStandsAlone | libcli/libcli.c:489-492 | a bar between plain words is a word of its own |
| Printf.DecimalRoundTrip | kexec-tools/purgatory/printf.c:90-117 | what %d prints is a decimal numeral of the value if and only if the value is not LONG_MIN |
| Printf.PutDigits | kexec-tools/purgatory/printf.c:106-109 | the digit loop appends the specified characters, least significant first |
| Printf.ReverseDigitsInPlace | kexec-tools/purgatory/printf.c:110-116 | the two pointers reverse the digits and leave the sign alone |
| Printf.FormatDecimal | kexec-tools/purgatory/printf.c:90-117 | %d leaves at most 20 characters of tmp, which are the specified numeral |
| Printf.HexRoundTrip | kexec-tools/purgatory/printf.c:74-89 | %x output read as hexadecimal, in either case, is the value modulo its width |
| Printf.HexLetters | kexec-tools/purgatory/printf.c:86-88 | letters are lower case for %x and upper case for %X |
| Printf.FormatHex | kexec-tools/purgatory/printf.c:74-89 | the shifting loop leaves at most 16 characters of tmp, which are the specified digits |

## Left out

- Dol.FixOverlaps: that no address is lost is proved for near ends only. Segments do not wrap past 4 GB.
- Dol.Convert: the pages of every section end below 4 GB; `TopPageEscapes` says what happens to a segment whose pages do
  not. Clearing the upper address bits and the add_segment calls of dol_ppc_load are not modelled.
- Sha256.Context.Update: bytes of the buffer beyond the live part are not specified, and the high word of the count is
  unbounded.
- Sha256.Context.Process: the unrolled lines are a loop over the eight-line register rotation that they repeat.
- Seal.UpdatePurgatory: at most SHA256_REGIONS protected segments, as the region array relies on, each with a buffer
  below 4 GB; arch_update_purgatory and the early return for loaders without purgatory are not modelled.
- Seal.SetSymbol: no global symbol has exactly e_shnum as its section, and those with data lie inside the buffer, which
  the source relies on without checking.
- Purgatory.VerifyDigest: what happens after a mismatch is not modelled, and only the acceptance of an intact image is a
  theorem.
- ElfRel.ElfRelLoad: section, symbol and relocation tables are taken decoded (elf_sym, elf_rel and elf_rela only
  decode); sh_addralign is a power of two, no index is exactly e_shnum, relocations patch sections with file data,
  and no size wraps. An object without section headers, which is refused, is not modelled.
- ElfRel.BaseEquivariance: relocation targets do not overlap; two that share bytes add into each other, and no single
  word then moves by a multiple of the distance.
- BootNotes.ReadNotes: names and descriptors lie inside their segment, which the walk relies on without checking; how the
  segment is found in the ELF headers is not modelled.
- BootNotes.ElfBootNotes: the placement of the block is the add_buffer of the allocator and is not repeated.
- IpChecksum.ComputeIpChecksum: data starts at an even address; the odd-start branch is not modelled.
- Printf.FormatDecimal: format parsing and the conversions %s and %c.
- /proc/iomem, getopt, file reading, zlib and the kexec_load and reboot system calls are inputs or not modelled.
- ET_DYN loading, multiboot and bzImage headers, the DOL boot-note block, TOC relocations and device setup.
- kdump, monoboot, and libcli's terminal loop, authentication, command tree and filters.
