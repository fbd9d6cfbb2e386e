# Verified model of the kernel's memory stack and of two decoders

This project models the memory management of the kernel and proves it correct, together with two
smaller pieces that have a hard property of their own. Each file says at its top what it covers.

**Paging** (`Descriptors`, `Tables`, `Translations`, `Mmu`, `KernelMaps`, `Boot`). Page tables are a
512-way tree of four levels, kept in physical memory and written in place by `Mmu.MapPage`, which
calls itself in the middle of its walk because every new table is first mapped at its own address.
`Tables.State` is the value of memory at one moment, `Tables.Leaf` the flat map from 36-bit page
number to frame and flags that it stands for, and `Tables.Mapped` what one call does to it. The
descriptor format is that of the Intel SDM, Volume 3A, section 4.5, and rights are those of section
4.6 of the same volume.

**Physical memory** (`Sections`, `SectionNodes`, `MemoryMaps`, `Pmm`, `Ledger`, `Pools`). The page allocator
keeps a doubly linked list of sections whose nodes come from an array. `SectionNodes.Stores` says
which list the nodes store, `Sections.Tiles` which map from page to USED, FREE or BAD the list stands
for, and the methods of `Pmm` are specified by what they do to that map. `MemoryMaps` holds the list
that pmm_start builds from the memory map, before and after it is merged. `Ledger` follows who owns
which page over whole runs, and `Pools` puts pools on the page allocator and the heap at once.

**Heap** (`Segments`, `HeapPages`, `Heap`). Segments behind 32-byte headers tile the heap. `Segments`
holds the operations on the list of segments and what they do to the blocks in use, `HeapPages` the
frames that page after page of the heap is mapped to, and `Heap` the header writes and the growth of
the heap, on top of the paging and the page allocator above.

**Keyboard** (`Ps2`, `KeyBuffer`, `Typing`). Scan-code framing one byte at a time, the translation table, and
the page of keys that an interrupt fills while a loop drains it: a state machine over all
interleavings, and the two programs on the bytes of the page, whose every schedule is a run of it.
`Typing` joins the two ends.

**Integer rendering** (`Itoa`). `utoa`, `itoa` and the unpadded part of `__int_str`.

## What the proofs show to be untrue of the code

Each is proved with its exact condition and with an input.

- A mapped page need not translate to its frame, because addresses are OR-ed in. It misses exactly when
  the page held a bit that the frame number lacks, or has the number of a frame that became a table on
  the way and lacks a bit of that (`Translations.MappedTranslatesExactly`; `MappedTwice` and
  `MappedOverTable` are instances of the two). New tables and remapped pages are alike (`MappedTables`,
  `RemappedTranslates`).
- `pmm_free_page` leaves some pages USED: `Pmm.FreePage` with `Sections.Frees`, and
  `Sections.OnlyPageStaysUsed`. The combine helpers compare kinds before the page is freed.
- `pmm_free_page` and `pmm_lock_page` read through NULL for page 0, past the start of the last
  section, and on its only page (`Sections.ReadsNull`). A pool can bring its owner there, because its
  pages may be merged into a USED tail: `Sections.PoolPageReadsNull`. No page that is owned is ever
  there while the last page of memory is BAD: `Ledgers.Serve`.
- `pmm_lock_page` goes astray when an empty section starts at the page (`Sections.Shadowed`,
  `Sections.EmptySectionShadows`). No FREE page is in that position: `Sections.FreeInReach`.
- Nodes that were deleted are never used again, though `pmm_section_manager_reindex` is there to find
  them: every method keeps the nodes from the head on unlinked, so the head only rises, and nothing is
  found once it has passed the end (`Pmm.NewSection`, `SectionNodes.SpareWhenFresh`,
  `SectionNodes.UnusedButSpent`).
- The list does not stay within its own pages. Only the first byte of a node is checked, and a node has
  40 bytes: the last one reaches into the page behind the locked ones unless the number of 64-megabyte
  blocks of free memory is a multiple of five (`MemoryMaps.NodesFit`, `LastNodeStraddles`). That page can
  be FREE, and then it is handed out while the allocator may still write to it: runs are safe from the
  start if and only if it is not (`Ledgers.BootedSafe`, `StraddledIsFirst`, `StraddledPage`). Until the
  last node is handed out the list itself keeps within the locked pages (`Ledgers.UntilTheLastNode`).
- The list need not show the memory map: exactly when it does is `MemoryMaps.BuiltShowsMap`, and
  `GapWraps` and `EntryLost` are inputs of the kinds that `limine_reinterpret` makes. Merging puts the
  first kind right (`JunkCoalesces`, `MergedShows`, `BelowStarts`), and not the second
  (`MergedShowsMap`).
- The first call of `pmm_alloc_pool` clears a page where its record has 24 bytes, and with it the heap
  header behind the record, or memory past the end of the heap: `Pools.RecordOverrun` and
  `Pools.PoolList.AllocPool`.
- A key whose interrupt falls between the read and the reset of the size is lost:
  `KeyBuffers.DeliveredExactly` and `KeyBuffers.KeyIsLost`.
- Keypad minus cannot be told from keypad plus, nor the right super key from the left one; all other keys
  have a number of their own (`Ps2.TableExact`, `Ps2.KeysDistinct`).
- `itoa` leaves no NUL behind a negative number whose magnitude has as many digits as the table
  allows: `Itoa.Itoa` with `Itoa.Terminated`, and `Itoa.LowestHasNoNul`.
- `__int_str` has no digits for ten and more in the bases 11 to 15 and writes NUL for them: what it writes
  reads back exactly when none is needed (`Itoa.IntStr`, `Itoa.ReadingDigits`).
- Upper-case base 16 of `__int_str` differs from `utoa` unless all digits are decimal:
  `Itoa.IntStrAgrees` and `Itoa.TenDiffers`.

## What the model takes for granted

- Addresses are page aligned, and memory is counted in pages. Physical memory has at most 2^36
  frames, so that every frame has an address of its own number.
- Running out of page frames or section nodes ends a method with `ok` false, where the source goes on
  to write through NULL, or to map the page of the heap to frame 0; the contracts then say what is
  still intact.
- For the heap, physical memory has at most 2^28 frames, a terabyte, which is what fits between the
  heap and the higher half.
- The memory map has the first megabyte as entry 0, marked unusable (limine.c:203-205), and no entry
  reaches the end of 64-bit memory, nor does the sum of their lengths (`MemoryMaps.FromBoot`). That
  entries do not overlap is assumed only where it is said.
- The kernel image and the two halves of the address space do not overlap (`KernelMaps.Apart`).
- The index parameters of methods (`ghost k`), the ghost lists and the keystroke numbers are annotations: no branch reads them.
- The three unrolled levels of `paging_map_page` are one method, `Mmu.Descend`, called three times.
- The readings of `Translations.Follow` and `Translations.Rights` are those of the processor as long as
  no descriptor above a leaf has bit 7, which would end its walk there (`Translations.Small`). No call
  of the model sets that bit unless it is among the flags asked for (`Translations.MappedStaysSmall`).
- A machine word of a descriptor is the set of the positions of its one bits.

## Model

| member | source | states |
|---|---|---|
| Descriptors.DescriptorReads | kernel/src/mem/paging/paging.h:67-76 | A descriptor word determines its frame and flags; reading the address sees the frame alone and reading a flag sees the flags alone |
| Descriptors.DescriptorUpdates | kernel/src/mem/paging/paging.h:45-93 | Setting the address ORs it into the frame and leaves the flags; setting or clearing one flag, replacing the flags and OR-ing flags leave the frame |
| Descriptors.BitOrSame | kernel/src/mem/paging/paging.h:45-47 | OR-ing an address into a frame number gives back that address exactly when it adds to a number all of whose one bits it contains |
| Descriptors.EncodableWrites | kernel/src/mem/paging/paging.h:45-93 | What the writes of paging.c make of a descriptor that 64 bits can hold is again one |
| Descriptors.FlagBits | kernel/src/mem/paging/paging.h:6-16 | By bit positions: a descriptor is present by bit 0, and the flags of a kernel page are bits 0 and 1 and no others |
| Tables.IndexerIsThePage | kernel/src/mem/paging/paging.h:52-62 | Two 64-bit addresses get the same four indices exactly when they lie on the same 36-bit page, and the indices are those of that page |
| Mmus.Mmu.MapPage | kernel/src/mem/paging/paging.c:8-68 | The page gets the frame and flags; every table frame taken on the way is mapped at its own address; every other leaf, every existing table and every flag above a leaf stays; the tables are again a tree, of descriptors that 64 bits can hold; pages change only from FREE to USED; the recursion ends because each nested call has fewer free frames |
| Mmus.Mmu.Descend | kernel/src/mem/paging/paging.c:14-28 | One level: an absent table is allocated, zeroed, linked and mapped at its own address by a nested call, a present one gains the flags; afterwards the child is the table behind the descriptor and the descriptor carries the flags |
| Mmus.Mmu.AddTable | kernel/src/mem/paging/paging.c:16-23 | The frame taken was free, is blank, and is linked from the one descriptor that was absent; nothing changes when no frame is left |
| Mmus.Mmu.WriteLeaf | kernel/src/mem/paging/paging.c:62-66 | The address is OR-ed into the one leaf and its flags are replaced |
| Mmus.Mmu.ZeroFrame | kernel/src/mem/paging/paging.c:19 | One frame becomes blank and every other stays |
| Mmus.Mmu.AllocFrame | kernel/src/mem/paging/paging.c:17 | A frame that was FREE and is so no longer; failure means that frames or section nodes are exhausted and changes nothing |
| Mmus.Mmu.WalkPage | kernel/src/mem/paging/paging.c:70-101 | The frame of the leaf that the flat map has for the page, 0 where a table is missing |
| Mmus.Mmu.LeafTable | kernel/src/mem/paging/paging.c:75-97 | The walk reaches a leaf table exactly when there is one, and then that one |
| Mmus.Mmu.UnmapPage | kernel/src/mem/paging/paging.c:103-137 | The state differs in the one leaf, if it has a table |
| Mmus.Mmu.RemapPage | kernel/src/mem/paging/paging.c:160-196 | Nothing happens without a leaf table; otherwise the old leaf is cleared and its frame and flags are mapped at the new page, whatever that page held |
| Translations.MappedTranslates | kernel/src/mem/paging/paging.c:62-66 | A mapped page whose leaf was empty or held that frame translates to exactly the frame and flags asked for, unless it is the own address of a table made on the way and mapped elsewhere |
| Translations.MappedTranslatesExactly | kernel/src/mem/paging/paging.c:62-66 | In general the page translates to the frame asked for if and only if every one bit of the frame number it held before is a one bit of the new one and, when a table made on the way has the number of the page, every one bit of that number too; its flags are those asked for in any case |
| Translations.MappedTranslatesElsewhere | kernel/src/mem/paging/paging.c:62-66 | What a caller can check before the call: unless the page has the number of a free frame, the bits it held decide alone |
| Translations.MappedTwice | kernel/src/mem/paging/paging.c:63 | One way to miss: a page that held frame 0x201 and is mapped to frame 0x202 translates to frame 0x203 |
| Translations.MappedOverTable | kernel/src/mem/paging/paging.c:17-24 | The other: an unmapped page 0x201 that is mapped to frame 0x202, while frame 0x201 becomes a table on the way, translates to frame 0x203 |
| Translations.MappedTables | kernel/src/mem/paging/paging.c:24 | A new table frame is mapped at its own address if and only if every one bit of what its leaf held, and of the frame asked for when it is the page being mapped, is a one bit of its number; its flags are those of a kernel page or those asked for |
| Translations.MappedFrame | kernel/src/mem/paging/paging.c:8-68 | Every page but the one mapped and the own addresses of new tables translates as before |
| Tables.PutEncodable | kernel/src/mem/paging/paging.c:26-66 | Rewriting a descriptor of any table by one that 64 bits can hold keeps all of them so |
| Tables.LinkEncodable | kernel/src/mem/paging/paging.c:16-23 | So does linking a new table |
| Translations.UnmappedTranslates | kernel/src/mem/paging/paging.c:103-137 | Unmapping clears one translation, leaves every other, and keeps the tree |
| Translations.RemappedTranslates | kernel/src/mem/paging/paging.c:160-196 | Remapping clears one page and leaves every third page, own addresses of new tables apart; the target gets the flags, and it translates to the frame if and only if what it held, and the number of a table made there, add no bit to the frame number |
| Translations.MappedRights | kernel/src/mem/paging/paging.c:54-66 | The rights of a page just mapped, taken over all four levels, are exactly the flags asked for |
| Translations.MappedKeepsRights | kernel/src/mem/paging/paging.c:22-59 | Mapping one page takes no right from another, own addresses of new tables apart, since these are mapped anew |
| Translations.MappedGrantsNothingElse | kernel/src/mem/paging/paging.c:22-59 | A right outside the flags asked for and the kernel flags reaches no page that did not have it |
| Translations.RunExtends | kernel/src/mem/paging/paging.c:8-196 | Over any run of mapping, unmapping and remapping calls no table moves or disappears, each frame taken is one new table, and no descriptor above a leaf loses a flag |
| Translations.RunTranslates | kernel/src/mem/paging/paging.c:8-196 | Over any run of mapping, unmapping and remapping calls a mapped page keeps its translation, and every right it was mapped with, until a call touches it, unless a table made in the run has its number |
| Translations.MadeKeeps | kernel/src/mem/paging/paging.c:8-196 | One call of any of the three kinds keeps the translation and the rights of a page that it does not touch and that is not the own address of a new table |
| Translations.TablesAreTheReachableFrames | kernel/src/mem/paging/paging.c:75-97 | While no descriptor that leads to a table has the large-page bit, the tables of the model are exactly the frames that following present descriptors from the root reaches in three steps, as the processor does |
| Translations.MappedStaysSmall | kernel/src/mem/paging/paging.c:22-59 | Mapping with flags without that bit sets it nowhere |
| Translations.TablesFormATree | kernel/src/mem/paging/paging.c:14-60 | No frame serves as two tables or on two levels |
| Translations.TakenFramesAreTables | kernel/src/mem/paging/paging.c:16-58 | As many frames are taken as tables added, and each frame taken is one of them |
| Translations.TablesBounded | kernel/src/mem/paging/paging.c:16-58 | There are never more than 1 + 512 + 512^2 + 512^3 tables |
| Translations.EnoughFrames | kernel/src/mem/paging/paging.c:16-58 | With more free frames than tables that can still be missing, no call uses them up |
| Tables.ExtendsTrans | kernel/src/mem/paging/paging.c:8-68 | What one call keeps of tables, frames and flags, two calls in a row keep |
| Tables.GrewByTable | kernel/src/mem/paging/paging.c:17-24 | Linking a blank table and then mapping it at its own address keeps the tree and changes no leaf but that of the new tables |
| Tables.GrewByFlags | kernel/src/mem/paging/paging.c:26-27 | OR-ing flags into a present descriptor keeps the tree and every leaf, and removes no flag |
| Tables.ThreeLevels | kernel/src/mem/paging/paging.c:14-60 | After three levels the leaf table is in place and all three descriptors above it carry the flags |
| Tables.MappedByLeaf | kernel/src/mem/paging/paging.c:62-66 | Writing the leaf last completes the mapping whatever the nested calls did before |
| Tables.PutLeaf | kernel/src/mem/paging/paging.c:66 | A write to a leaf moves one page and nothing above the leaves |
| Mmus.Mmu.ReloadKernelMap | kernel/src/mem/paging/reload.c:13-32 | By addresses and bits: every page of memory that is free, in use, device memory or of a signal the kernel does not know translates to itself at its own address and from 0xffff800000000000 on, and the kernel image where it was linked, all present and writable and closed to user programs at all four levels; every other page has an empty leaf; the value loaded into CR3 is the frame of the root table itself |
| Mmus.Mmu.NewRoot | kernel/src/mem/paging/reload.c:14-16 | The first frame is a blank root table that is a usable page |
| Mmus.Mmu.MapEntries | kernel/src/mem/paging/reload.c:18-25 | Every entry that is not marked unusable is mapped in both halves |
| Mmus.Mmu.MapEntryPages | kernel/src/mem/paging/reload.c:20-23 | One entry is added to those mapped, and those before it stay mapped |
| Mmus.Mmu.MapImage | kernel/src/mem/paging/reload.c:27-29 | The kernel image is added and the entries stay mapped |
| Mmus.Mmu.MapIntended | kernel/src/mem/paging/reload.c:21-22 | One intended page is finished and no finished page is undone |
| KernelMaps.StepBuilds | kernel/src/mem/paging/reload.c:18-29 | The loop invariant: each leaf stays empty or as intended through a call and all the table allocations nested in it |
| KernelMaps.StepKeeps | kernel/src/mem/paging/reload.c:18-29 | A finished page keeps frame, flags and rights through a call for another page |
| KernelMaps.AllDone | kernel/src/mem/paging/reload.c:13-32 | When the loops are through, every usable page and every image page is mapped as promised |
| KernelMaps.ReloadedSpace | kernel/src/mem/paging/reload.c:13-32 | What the loops promise of entries and flags comes to that, by addresses and bits |
| KernelMaps.MapsForKernel | kernel/src/mem/paging/paging.h:10-16 | A page mapped with the flags of a kernel page can be read and written by the kernel, and not by user programs |
| KernelMaps.RootMapsToItself | kernel/src/mem/paging/reload.c:31 | The walk for the root frame gives the root frame back |
| KernelMaps.BootedUsable | kernel/src/mem/paging/reload.c:14 | Every frame that the allocator can give after pmm_start belongs to a usable entry, so identity addresses of tables never clash with the map being built |
| Booting.Boot | kernel/src/boot/limine/limine.s:35-41 | The two calls in a row, on any memory map with the first megabyte as the boot code marks it: pmm_start comes to its end exactly on the maps of MemoryMaps.Startable, and where it does, and no entry is lost, the kernel gets the address space promised by the second call unless frames or nodes run out |
| Booting.FirstHeap | kernel/src/mem/heap/allocator.c:62 | On those page tables, with at most a terabyte of memory, the heap is ready for its first malloc: its region is unmapped and large enough for every frame |
| Pmms.Pmm.Reindex | kernel/src/mem/pmm/pmm.c:28-37 | The head is a node that looks unused, or 0 when there is none |
| Pmms.Pmm.NewSection | kernel/src/mem/pmm/pmm.c:39-54 | A node handed out is not on the list; none is handed out exactly when the head has passed the end or no node is unused; and as long as no node from the head on is linked, which every method keeps, the node handed out is the one at the head, so that deleted nodes never are found again |
| Pmms.Pmm.DeleteSection | kernel/src/mem/pmm/pmm.c:56-62 | The node looks unused and no other is touched |
| SectionNodes.UnlinkedIsOff | kernel/src/mem/pmm/pmm.c:45-50 | A node without neighbours is on no list of two sections or more |
| SectionNodes.UnusedButSpent | kernel/src/mem/pmm/pmm.c:39-54 | On any list, once the head has passed the end: merging two sections leaves a node unused that is never found |
| SectionNodes.SpareWhenFresh | kernel/src/mem/pmm/pmm.c:39-54 | As long as no node from the head on is linked, a node is found exactly when the head has not passed the end, and it is the one at the head |
| SectionNodes.SplitStores | kernel/src/mem/pmm/pfa.c:21-35 | The link writes of a split link the new node in exactly once and keep prev and next mutual inverses |
| SectionNodes.StrayStores | kernel/src/mem/pmm/pfa.c:183-196 | What pmm_lock_page writes at an empty section leaves the links of the list |
| SectionNodes.DropStores | kernel/src/mem/pmm/pfa.c:68-73 | Unlinking a node leaves the rest of the list stored, whatever happens to the node and to the contents of its neighbours |
| SectionNodes.MergeStores | kernel/src/mem/pmm/pfa.c:42-56 | So do the writes of a merge |
| SectionNodes.MergeNextStores | kernel/src/mem/pmm/pfa.c:42-46 | The writes of a forward merge store the merged list, without the deleted node |
| SectionNodes.MergePrevStores | kernel/src/mem/pmm/pfa.c:53-56 | The writes of a backward merge store the merged list, without the deleted node |
| SectionNodes.AbsorbedStores | kernel/src/mem/pmm/pmm.c:98-107 | The writes of one merge of pmm_recombine store the list with two sections made one, at the end of the list as well, whatever their lengths |
| SectionNodes.AppendStores | kernel/src/mem/pmm/pmm.c:176-182 | A fresh node is linked in behind the last |
| SectionNodes.InsertStores | kernel/src/mem/pmm/pmm.c:185-194 | A fresh node is linked in between two |
| Sections.ViewIsUnique | kernel/src/mem/pmm/pfa.c:17-219 | A section list stands for one page map only |
| Sections.SplitTiles | kernel/src/mem/pmm/pfa.c:32-35 | A split changes no page |
| Sections.MergeNextTiles | kernel/src/mem/pmm/pfa.c:42-46 | Merging two sections of one kind changes no page |
| Sections.MergePrevTiles | kernel/src/mem/pmm/pfa.c:53-56 | Merging two sections of one kind changes no page |
| Sections.ShiftDownTiles | kernel/src/mem/pmm/pfa.c:79-81 | Moving the boundary changes the one page to the kind of the section before |
| Sections.ShiftUpTiles | kernel/src/mem/pmm/pfa.c:142-144 | Moving the boundary changes the one page to the kind of the section after |
| Sections.DropTiles | kernel/src/mem/pmm/pfa.c:68-73 | Dropping an empty section changes no page |
| Sections.NoneBefore | kernel/src/mem/pmm/pfa.c:67-76 | When the scan has met no FREE section, no page before it is FREE |
| Sections.FirstFree | kernel/src/mem/pmm/pfa.c:67-87 | The first FREE section holds the lowest FREE page, and the pages beside it tell the kind of the section before and whether there are more pages |
| Sections.StartsHere | kernel/src/mem/pmm/pfa.c:102-136 | At the first section that starts at the page: whether it is empty, what the page is, and exactly when the scan goes on through NULL |
| Sections.StartsBefore | kernel/src/mem/pmm/pfa.c:138-153 | At a section that starts before the page: without a next one the scan goes on through NULL, and otherwise the page is in this section or the scan goes on |
| Sections.FreeInReach | kernel/src/mem/pmm/pfa.c:158-219 | A FREE page is never behind NULL nor behind an empty section |
| Sections.UsedInReach | kernel/src/mem/pmm/pfa.c:97-156 | Nor is a USED page behind NULL when the last page of memory is BAD |
| Sections.PoolPageReadsNull | kernel/src/mem/pmm/pfa.c:138-138 | A concrete list on which a pool of two pages disappears into a USED tail, after which freeing its second page reads through NULL |
| Sections.EmptySectionShadows | kernel/src/mem/pmm/pfa.c:183-196 | A concrete list on which pmm_lock_page stops at an empty section in front of its page |
| Sections.FreesFirst | kernel/src/mem/pmm/pfa.c:102-136 | For a page that starts a section: exactly when it is freed |
| Sections.FreesInside | kernel/src/mem/pmm/pfa.c:138-153 | For a page inside a section: exactly the last one is freed |
| Sections.OnlyPageStaysUsed | kernel/src/mem/pmm/pfa.c:111-114 | A concrete list behind the first megabyte on which freeing a USED page does nothing: it is alone in its section and a neighbour is FREE |
| Sections.CoalesceSwallow | kernel/src/mem/pmm/pmm.c:83-110 | Merging one pair of neighbours of one kind first does not change what merging all from the left gives, with 64-bit byte lengths |
| Sections.CoalesceTiles | kernel/src/mem/pmm/pmm.c:83-110 | Merging all of them keeps the page map, leaves no two neighbours of one kind, and no empty section but FREE ones when there was none |
| Sections.StillSettled | kernel/src/mem/pmm/pmm.c:83-110 | A list with nothing left to merge is one the allocator can work on, when its ends are right and some page is not BAD |
| Pmms.Pmm.SectionSplit | kernel/src/mem/pmm/pfa.c:17-36 | The list is split at the address, or left when the address is past the section; false when no node was left |
| Pmms.Pmm.SectionCombineNext | kernel/src/mem/pmm/pfa.c:38-47 | Two sections of one kind become one in the later node; of two kinds nothing happens |
| Pmms.Pmm.SectionCombinePrev | kernel/src/mem/pmm/pfa.c:49-57 | Two sections of one kind become one in the earlier node; of two kinds nothing happens |
| Pmms.Pmm.AllocPage | kernel/src/mem/pmm/pfa.c:61-95 | Exactly the lowest FREE page becomes USED and is returned; 0 only when no page is FREE or allocation is off; it fails if and only if the page before is not USED, the page behind is FREE, and no node is left, and takes a node, and then one, only when the first two are so |
| Pmms.Pmm.UseFirst | kernel/src/mem/pmm/pfa.c:77-87 | The first page of a section that is not USED becomes USED and no other page changes; behind a USED section the boundary moves, which needs no node and cannot fail; otherwise one node is taken unless it is the only page |
| Pmms.Pmm.FreePage | kernel/src/mem/pmm/pfa.c:97-156 | For every page: it becomes FREE if and only if it is not FREE and is the last of several in a section with one behind it, or the first with more behind it or with no FREE neighbour and no empty section before it; no other page ever changes; NULL is read if and only if the page is 0, or past the start of the last section, or its only page; a node is taken, and the call fails without one, if and only if the page is freed out of several and the section on its side is not FREE |
| Pmms.Pmm.FreeSingle | kernel/src/mem/pmm/pfa.c:104-122 | The only page of a section is freed when neither neighbour is FREE; otherwise the combine helpers, which compare kinds first, leave the list as it is |
| Sections.SplitsFirst | kernel/src/mem/pmm/pfa.c:124-136 | For a page that starts a section: when freeing it needs a node |
| Sections.SplitsInside | kernel/src/mem/pmm/pfa.c:138-151 | For a page inside a section: when freeing it needs a node |
| Pmms.Pmm.FreeFirst | kernel/src/mem/pmm/pfa.c:103-136 | For the first page of a section: exactly when it becomes FREE, and that nothing else changes |
| Pmms.Pmm.FreeLast | kernel/src/mem/pmm/pfa.c:140-151 | The last page of a section of several becomes FREE, and nothing else changes |
| Pmms.Pmm.LockPage | kernel/src/mem/pmm/pfa.c:158-219 | For every page: it becomes USED, whatever its kind and wherever it lies in its section, across all merges, shifts and splits, and no other page changes; unless NULL is read, under the condition of pmm_free_page, when the one page of a section has been marked before and nothing else; or an empty section starts at the page, whose page count then wraps or which is marked as it is; it takes as many nodes as Sections.LockNodes says, and fails if and only if fewer are left; the only page of a section joins the USED sections on both sides |
| Sections.PageNodesAt | kernel/src/mem/pmm/pfa.c:158-219 | How many nodes a page needs: two in the middle of a section that is not USED, one at an end without a USED neighbour, otherwise none |
| Pmms.Pmm.LockNone | kernel/src/mem/pmm/pfa.c:183-196 | What becomes of an empty section that is taken for one that holds the page |
| Sections.StrayTiles | kernel/src/mem/pmm/pfa.c:183-196 | Behind a section that is not USED no page changes and an empty USED section is left; behind a USED one the list tiles no memory any more |
| Pmms.Pmm.LockFirst | kernel/src/mem/pmm/pfa.c:163-196 | For the first page of a section: how the call ends, what is written before NULL is read or at an empty section, and that otherwise exactly this page becomes USED |
| Pmms.Pmm.LockSingle | kernel/src/mem/pmm/pfa.c:163-181 | The only page of a section becomes USED, and the section is one with the USED ones beside it, from the start of the one before to the end of the one behind, with as many sections fewer |
| Sections.JoinedNow | kernel/src/mem/pmm/pfa.c:163-181 | The merges for each kind of the two neighbours come to that |
| Pmms.Pmm.LockInside | kernel/src/mem/pmm/pfa.c:197-217 | A FREE page inside a section becomes USED by a shift or by one or two splits |
| Pmms.Pmm.LockPages | kernel/src/mem/pmm/pfa.c:226-231 | When the call gets through, exactly the pages of the stretch are USED; when all of them are FREE it needs just the nodes that the first one needs, and fails if and only if fewer are left |
| Sections.BehindUsed | kernel/src/mem/pmm/pfa.c:185-190 | A FREE page behind a USED one needs no node |
| Pmms.Pmm.PlacePool | kernel/src/mem/pmm/pfa.c:261-276 | Behind the malloc of the record: the lowest stretch of so many FREE pages becomes USED and no other page changes; 0 only when there is no such stretch anywhere; one node is taken if and only if the page before is not USED and the one behind the first is FREE, and the call fails if and only if none is left then |
| Sections.LowestStretch | kernel/src/mem/pmm/pfa.c:263-270 | A scan without a FREE section of that length has passed no stretch of so many FREE pages |
| Pools.PoolList.AllocPool | kernel/src/mem/pmm/pfa.c:242-276 | With the malloc of the record: the first FREE section that has so many is sought in the list as the malloc has left it; 0 only when none has; a record is kept in either case, with a base only in the first; the block of the record is new; the heap is in order again, page mappings included, except after the first call, whose memset leaves exactly the headers of Pools.Zeroed |
| Pools.Place | kernel/src/mem/pmm/pfa.c:261-276 | The search leaves the tables, the translations and the pages of the heap as they are |
| Pools.TakeRecord | kernel/src/mem/pmm/pfa.c:247-259 | The block of the record is new, and the first call ends with a heap whose headers store its segments no more, or that ends before the zeroed page does |
| Pools.RecordOverrun | kernel/src/mem/pmm/pfa.c:248-249 | In every heap, zeroing a page at a block as short as a record goes past the end of the heap or loses the header behind the block |
| Pools.ZeroedFields | kernel/src/mem/pmm/pfa.c:249-249 | Which fields of which headers the zeroed page takes, by their offsets |
| Pools.StillBacked | kernel/src/mem/pmm/pfa.c:261-276 | Frames that are no longer FREE leave every table and every page of the heap where it is |
| Pmms.Pmm.Recombine | kernel/src/mem/pmm/pmm.c:83-110 | On any list, also one that tiles nothing: all neighbours of one kind are merged, as from the left, with lengths in 64-bit arithmetic; the passes end because each that finds a pair has removed a section |
| Pmms.Pmm.Absorb | kernel/src/mem/pmm/pmm.c:98-107 | The section after the current one disappears into it |
| Pmms.Pmm.LinkLast | kernel/src/mem/pmm/pmm.c:176-182 | The fresh node at the head becomes the last section |
| Pmms.Pmm.LinkGap | kernel/src/mem/pmm/pmm.c:185-194 | The fresh node at the head becomes the section before the last |
| Pmms.Pmm.Append | kernel/src/mem/pmm/pmm.c:175-195 | One entry adds its section, after a BAD one when the last section does not end where the entry starts, whose length wraps when it ends behind; false exactly when there are too few nodes |
| Pmms.Pmm.SumFree | kernel/src/mem/pmm/pmm.c:138-142 | The free memory of the map |
| Pmms.Pmm.Recalculate | kernel/src/mem/pmm/pmm.c:112-120 | The number of FREE pages |
| Pmms.Pmm.FindHost | kernel/src/mem/pmm/pmm.c:151-158 | The first free entry that can hold the bookkeeping data, if there is one |
| Pmms.Pmm.Build | kernel/src/mem/pmm/pmm.c:160-196 | The list of MemoryMaps.Built, entry by entry; it fails exactly when that list has more sections than there are nodes |
| Pmms.Pmm.Start | kernel/src/mem/pmm/pmm.c:129-206 | On any memory map with the first megabyte as the boot code marks it: exactly when it cannot go on, and why; otherwise a page is USED if and only if it is bookkeeping memory, which lies in the first free entry that can hold it, or memory in use that got a section, and FREE if and only if it is free memory that got one and not bookkeeping; the list is one the allocator can work on, and the free memory recalculated from it is that of the entries with a section |
| MemoryMaps.BootedKinds | kernel/src/mem/pmm/pmm.c:64-77 | That reading of the page map, by the signals of the entries |
| MemoryMaps.DataBounds | kernel/src/mem/pmm/pmm.c:144-148 | The bookkeeping memory is at least a 64th of the free memory, in whole megabytes, and less than one megabyte more |
| MemoryMaps.BuiltShowsMap | kernel/src/mem/pmm/pmm.c:168-196 | The list that is built shows the memory map if and only if no entry that gets a section starts before the end of the one before, and no entry of free memory or memory in use starts where the last section does, unless it is empty |
| MemoryMaps.GapWraps | kernel/src/mem/pmm/pmm.c:185-190 | One way to fail, as limine.c:206-211 leaves it: an empty entry below the first megabyte makes a gap of 2^52 - 174 pages |
| MemoryMaps.EntryLost | kernel/src/mem/pmm/pmm.c:171-173 | The other, as limine.c:213-216 leaves it: free memory behind an entry cut down to nothing at the first megabyte gets no section |
| MemoryMaps.DrawnTiles | kernel/src/mem/pmm/pmm.c:168-196 | From entries in order, the sections tile memory up to the end of the last of them |
| MemoryMaps.DrawnShows | kernel/src/mem/pmm/pmm.c:168-196 | And a page is FREE or USED if and only if an entry with a section says so |
| MemoryMaps.JunkCoalesces | kernel/src/mem/pmm/pmm.c:198-198 | Behind the first megabyte, any number of empty entries below it, in any order, merge into one BAD section up to where the last of them lies, the wrapped gaps included |
| MemoryMaps.MergedShows | kernel/src/mem/pmm/pmm.c:198-198 | On a sound memory map the merged list tiles the page map that pmm_start goes on with, and the allocator can work on it |
| MemoryMaps.KeptAreShown | kernel/src/mem/pmm/pmm.c:168-198 | In that page map a page is FREE or USED if and only if an entry with a section says so |
| MemoryMaps.MergedShowsMap | kernel/src/mem/pmm/pmm.c:168-198 | It shows the memory map if and only if no entry is lost |
| MemoryMaps.SoundWhen | kernel/src/mem/pmm/pmm.c:168-198 | A memory map is sound when the entries behind the emptied ones are in order and not empty, the last section is not FREE, and some page is not BAD |
| MemoryMaps.BelowStarts | kernel/src/mem/pmm/pmm.c:129-206 | The memory map of GapWraps: pmm_start goes through, with nothing lost |
| MemoryMaps.CountShown | kernel/src/mem/pmm/pmm.c:112-196 | The FREE pages of that page map are those of the entries with a section, and those of the memory map when none is lost |
| MemoryMaps.NodesFit | kernel/src/mem/pmm/pmm.c:39-42 | The nodes lie within the locked pages if and only if the number of 64-megabyte blocks is a multiple of five; otherwise the last one reaches into the page behind |
| MemoryMaps.LastNodeStraddles | kernel/src/mem/pmm/pmm.c:39-42 | An instance with up to 64 megabytes: the last 24 of the bytes of node 26214 lie behind the 256 locked pages |
| MemoryMaps.HostIsFree | kernel/src/mem/pmm/pmm.c:151-158 | The pages of the host are FREE before they are locked, when no entry is lost |
| MemoryMaps.DataFits | kernel/src/mem/pmm/pmm.c:144-147 | There is room for a node exactly when there is free memory |
| Ledgers.RunSafe | kernel/src/mem/pmm/pfa.c:61-276 | Over every run of allocations and frees, allocations are pairwise disjoint, lie in USED pages and never include a page that holds a byte of a node, from any state where that page is not FREE |
| Ledgers.StepSafe | kernel/src/mem/pmm/pfa.c:61-276 | Each kind of call keeps that |
| Ledgers.Serve | kernel/src/mem/pmm/pfa.c:61-276 | Every call of the manager that returns is a step of such a run, for any page that is owned; giving one back reads NULL exactly under the stated condition, and never while the last page of memory is BAD, which stays so |
| Ledgers.FreshAllocation | kernel/src/mem/pmm/pfa.c:61-276 | What a call gives was FREE and owned by nobody |
| Ledgers.BootedSafe | kernel/src/mem/pmm/pmm.c:129-206 | After pmm_start that is so if and only if the number of 64-megabyte blocks of free memory is a multiple of five, or the page behind the locked ones is not FREE |
| Ledgers.StraddledIsFirst | kernel/src/mem/pmm/pmm.c:151-206 | When the first entry of free memory is the host and has more pages than are locked, the page behind the locked ones is the lowest FREE page, the one that the first allocation hands out |
| Ledgers.StraddledPage | kernel/src/mem/pmm/pmm.c:129-206 | An instance with 16 megabytes: page 0x200 holds the end of the last node and is handed out first |
| Ledgers.UntilTheLastNode | kernel/src/mem/pmm/pmm.c:39-54 | As long as the head has not passed the last node, every node of the list lies within the locked pages |
| Ledgers.StepKeepsBadTail | kernel/src/mem/pmm/pfa.c:61-276 | No step of a run touches a last page that is BAD |
| Ledgers.BootedTail | kernel/src/mem/pmm/pmm.c:129-206 | After pmm_start the last page is BAD when the last section is neither free nor in use |
| Heaps.Heap.HeaderSplit | kernel/src/mem/heap/allocator.c:22-41 | The segment is cut in two if and only if at least 16 bytes are asked and it has 48 more, in signed 64-bit arithmetic; the last header is kept right |
| Heaps.Heap.HeaderCombineForward | kernel/src/mem/heap/allocator.c:43-56 | A free segment behind is swallowed, header and all, and nothing happens otherwise |
| Heaps.Heap.HeaderCombineBackward | kernel/src/mem/heap/allocator.c:58-60 | A free segment before swallows this one, and nothing happens otherwise |
| Heaps.Heap.HeapInitialize | kernel/src/mem/heap/allocator.c:64-84 | One free segment fills the heap, each of whose pages is mapped with kernel rights to a frame of its own that was FREE and is USED |
| Heaps.Heap.FirstSegment | kernel/src/mem/heap/allocator.c:72-83 | The headers store one free segment from end to end |
| Heaps.Heap.AppendSegment | kernel/src/mem/heap/allocator.c:93-105 | A free segment is added at the end of the heap |
| Heaps.Heap.AddSegment | kernel/src/mem/heap/allocator.c:100-106 | The list grows by a free segment, joined with a free one before it |
| HeapPages.MapFresh | kernel/src/mem/heap/allocator.c:95-98 | Page after page of the heap region is mapped to a frame that was FREE, is USED, is no table and lies under no other page of the heap; pages change only from FREE to USED |
| HeapPages.NextPage | kernel/src/mem/heap/allocator.c:68-68 | One round of that |
| HeapPages.GrowsHeap | kernel/src/mem/heap/allocator.c:95-98 | Mapping the next page keeps the pages before it and the region above it, whatever tables are made on the way |
| HeapPages.KeepsHeap | kernel/src/mem/paging/paging.c:8-68 | Mapping any page outside the heap region leaves the pages of the heap, their rights and their frames |
| HeapPages.StaysInRegion | kernel/src/mem/heap/allocator.c:86-98 | The heap never outgrows its region, as each page takes a frame of its own |
| HeapPages.RoomLeft | kernel/src/mem/heap/allocator.c:96 | As long as a frame is free there is a page left for it |
| HeapPages.ReloadedIsClear | kernel/src/mem/paging/reload.c:13-32 | The region is unmapped after paging_reload_kernel_map |
| Heaps.Heap.HeapExpand | kernel/src/mem/heap/allocator.c:86-107 | The heap grows by the page-rounded length, on pages mapped with kernel rights to further frames that were FREE, and the new segment joins a free last one; it fails only when frames or section nodes run out or the rounded length wraps to 0 |
| Heaps.Heap.Free | kernel/src/mem/heap/allocator.c:109-114 | Exactly the block given back is no longer in use, and no two free neighbours are left |
| Heaps.Heap.Malloc | kernel/src/mem/heap/allocator.c:116-149 | For every size: the block starts in the first segment in address order that fits once the heap has grown as often as needed, at most twice; the end moves by that many page-rounded sizes; the pages that the heap had keep their frames, and the frames of the new ones were FREE; shape, links, alignment, the 16 bytes of every segment, coalescing and the mapping of every page hold again; the heap starts at 0x7f0000000000; it fails only when it had to grow and frames or section nodes ran out or the rounded size wraps |
| Heaps.Heap.TakeFirst | kernel/src/mem/heap/allocator.c:128-144 | The first free segment that fits is taken; when none fits nothing changes |
| Heaps.Heap.TakeHere | kernel/src/mem/heap/allocator.c:132-140 | A free segment that fits is split when it is longer than asked, and marked |
| Heaps.Heap.BytesAreMapped | kernel/src/mem/heap/allocator.c:86-149 | Every byte of a block in use lies on a page that translates to a frame of the heap, present and writable and closed to user programs |
| Heaps.Heap.RoundUp | kernel/src/mem/heap/allocator.c:121-124 | The size rounded up to 16 in 64-bit arithmetic |
| Heaps.SplitStores | kernel/src/mem/heap/allocator.c:27-37 | The link writes of a split keep next and last mutual inverses |
| Heaps.JoinStores | kernel/src/mem/heap/allocator.c:49-55 | The link writes of a merge keep next and last mutual inverses |
| Heaps.AppendStores | kernel/src/mem/heap/allocator.c:100-105 | The link writes of an expansion keep next and last mutual inverses |
| Segments.Rounded | kernel/src/mem/heap/allocator.c:121-124 | At least the size and less than 16 more, except that sizes within 15 of 2^64 wrap to 0 |
| Segments.PageRounded | kernel/src/mem/heap/allocator.c:87-90 | The least whole number of pages that holds the length |
| Segments.LiveDisjoint | kernel/src/mem/heap/allocator.c:109-149 | Two blocks in use are equal or lie apart with a header between them, inside the heap, and are 16-aligned |
| Segments.TakeLive | kernel/src/mem/heap/allocator.c:131-141 | Taking the first fit adds one block, under 48 bytes longer than asked, and moves no other |
| Segments.TakeLength | kernel/src/mem/heap/allocator.c:22-35 | The block is as long as asked when the first fit has 48 bytes more, and a free segment of the rest follows; otherwise it is the whole segment |
| Segments.ExpandLive | kernel/src/mem/heap/allocator.c:86-107 | Growing the heap changes no block in use |
| Segments.ReleaseLive | kernel/src/mem/heap/allocator.c:109-114 | free takes back exactly one block |
| Segments.TakeCoalesced | kernel/src/mem/heap/allocator.c:131-141 | malloc leaves no two free neighbours |
| Segments.ReleaseCoalesced | kernel/src/mem/heap/allocator.c:109-114 | free leaves no two free neighbours |
| Segments.ReleaseShape | kernel/src/mem/heap/allocator.c:109-114 | free keeps the tiling, the alignment, and at least 16 bytes in every segment |
| Segments.TakeShape | kernel/src/mem/heap/allocator.c:131-141 | malloc keeps the tiling, the alignment, and at least 16 bytes in every segment |
| Segments.ExpandGrowth | kernel/src/mem/heap/allocator.c:146-148 | Each expansion brings the request one step nearer, and two are always enough |
| Segments.AllocatedBlock | kernel/src/mem/heap/allocator.c:116-149 | The block malloc returns starts 32 bytes into the first segment that fits; it is as long as asked when that segment has 48 bytes more, and else all of it; it is new, and the only change to the blocks in use |
| Ps2.FeedAllConserves | kernel/src/iodev/hid/ps2/ps2_kbd.c:144-159 | For any bytes at all none is lost, doubled or moved, and at most seven are held back |
| Ps2.FramingUndoesEncoding | kernel/src/iodev/hid/ps2/ps2_kbd.c:86-118 | A stream made of framed codes is taken apart into exactly those codes |
| Ps2.KnownFramed | kernel/src/iodev/hid/ps2/ps2_kbd.c:86-118 | Every code of the translation table is framed: the whole code ends it and no proper part does |
| Ps2.KnownCodesRoundTrip | kernel/src/iodev/hid/ps2/ps2_kbd.c:144-159 | Any sequence of table codes, sent as one stream, is dispatched code by code, in order |
| Ps2.Resynchronizes | kernel/src/iodev/hid/ps2/ps2_kbd.c:86-118 | After any bytes at all, an ordinary make code ends the code it comes in, and all codes that follow come out |
| Ps2.TableExact | kernel/src/iodev/hid/ps2/ps2_kbd.c:248-502 | Both ways, with a second table in the order of the keys: a make code gives a key if and only if it is the code of that key, or keypad minus, which gives keypad plus, or the right super key, which gives the left one |
| Ps2.KeysDistinct | kernel/src/iodev/hid/ps2/ps2_kbd.c:248-502 | Two table codes give one key if and only if they are equal or such a pair |
| Typing.ModifierKeys | apps/frames/prism/src/kbd/kbd.c:146-160 | The codes 12, 59, 58 and 77 and their releases, and no others, give the keys that kbd_update reads as shift, caps lock and num lock |
| Typing.TypedModifiers | apps/frames/prism/src/kbd/kbd.c:143-168 | From the bytes on the wire to the modifiers: when all keys are delivered, shift is on if and only if a shift key was pressed and none let go of since, and caps lock and num lock if and only if pressed an odd number of times |
| Ps2.RenderInjective | kernel/src/iodev/hid/ps2/ps2_kbd.c:134-140 | Codes that do not start with a zero byte are told apart by their rendered numbers |
| Ps2.TranslateKnown | kernel/src/iodev/hid/ps2/ps2_kbd.c:248-502 | Each table code translates to its own key, with bit 7 on release |
| Ps2.TranslateIsTable | kernel/src/iodev/hid/ps2/ps2_kbd.c:248-502 | A byte string has a key if and only if it is the encoding of a table code |
| Ps2.Keyboard.Irq | kernel/src/iodev/hid/ps2/ps2_kbd.c:144-159 | One byte is one step of the framing; a byte that comes while the keyboard is masked or being commanded is dropped and masks it; the position is at most seven at every write; every interrupt is acknowledged once, and the port is read once unless a command waits for it |
| Ps2.Keyboard.HandleScancode | kernel/src/iodev/hid/ps2/ps2_kbd.c:134-142 | The bytes as one number, the first highest |
| Ps2.Keyboard.ClearScanBuffer | kernel/src/iodev/hid/ps2/ps2_kbd.c:25-28 | The buffer is zero and empty |
| KeyBuffers.InterruptKeepsInv | kernel/src/proc/calls/handlers/kb_man.c:50-59 | A keystroke between any two steps of the drain loop keeps the invariant |
| KeyBuffers.StepKeepsInv | apps/frames/prism/src/kbd/kbd.c:139-171 | Each step of the drain loop keeps it, the clear of one byte too many included |
| KeyBuffers.After | apps/frames/prism/src/kbd/kbd.c:139-171 | Under every interleaving the keys delivered and waiting are, in order, the registered keys not lost, and the modifiers are the fold over the keys delivered |
| KeyBuffers.DeliveredFaithful | apps/frames/prism/src/kbd/kbd.c:139-171 | Under every interleaving the keys delivered are registered keys, in order and without repetition |
| KeyBuffers.DeliveredExactly | apps/frames/prism/src/kbd/kbd.c:139-171 | A key is delivered in the end if and only if it found room and did not come between the read and the reset of the size |
| KeyBuffers.DeliveredByMoment | apps/frames/prism/src/kbd/kbd.c:139-171 | By the moment of the keystroke: it is delivered in the end if and only if the drain was outside its loop then and fewer than 4094 keys were waiting |
| KeyBuffers.RunReflects | apps/frames/prism/src/kbd/kbd.c:146-160 | Over any run, by the codes delivered: shift is on if and only if 0x45 or 0x46 has come and no 0xC5 or 0xC6 since, caps lock if and only if 0x4B has come an odd number of times, and num lock likewise for 0x4D |
| KeyBuffers.NothingLost | apps/frames/prism/src/kbd/kbd.c:139-171 | Without such keys a finished drain has delivered exactly what was registered |
| KeyBuffers.KeyIsLost | apps/frames/prism/src/kbd/kbd.c:139-171 | A concrete interleaving: a key that comes while the one before it is delivered never is |
| KeyBuffers.DrainedAll | apps/frames/prism/src/kbd/kbd.c:139-171 | From one idle state to another without a keystroke in between every waiting key is delivered |
| KeyBuffers.SharedPage.SaveKey | kernel/src/proc/calls/handlers/kb_man.c:50-59 | The key is appended unless the page is full or not claimed; it is an interrupt of the machine |
| KeyBuffers.SharedPage.Update | apps/frames/prism/src/kbd/kbd.c:139-171 | With any keystrokes between its steps, the drain of the page is a run of the machine from one idle state to another, and the modifiers are those of the codes delivered, by literal codes; uninterrupted, every key is delivered once, in order, and the bytes of the keys, one more and the size are zero and no others change |
| KeyBuffers.SharedPage.DeliverKey | apps/frames/prism/src/kbd/kbd.c:143-168 | The key at that place is delivered, and the modifiers are those of the codes delivered; it is one step of the machine |
| KeyBuffers.SharedPage.ClearByte | apps/frames/prism/src/kbd/kbd.c:169-169 | One byte is cleared, as one step of the machine, also when it is the low half of the size |
| KeyBuffers.SharedPage.ResetSize | apps/frames/prism/src/kbd/kbd.c:170-170 | The page is empty, as one step of the machine |
| KeyBuffers.SharedPage.SetSize | apps/frames/prism/src/kbd/kbd.c:170 | The 16-bit size is set and the keys stay |
| Itoa.Utoa | kernel/src/extra/itoa.c:87-123 | The digits of any 64-bit value, which read back as the value, at most as many as the table says, and NUL behind them; nothing past the cleared part; a base outside 2 to 16 changes nothing |
| Itoa.Itoa | kernel/src/extra/itoa.c:30-84 | For every 64-bit value: the digits of its magnitude, behind a minus sign when it is negative, which read back as the value; the cell behind them is NUL if and only if the value is not negative or its magnitude is below the power of the base to one less than the table entry; the cells up to the table entry are NUL and no cell past it is touched; a base outside 2 to 16 changes nothing, and the most negative value is where the negation overflows, with the cells cleared |
| Itoa.WrittenFits | kernel/src/extra/itoa.c:30-84 | The sign and digits end before the last cleared cell if and only if the value is not negative or its magnitude is below that power |
| Itoa.LowestHasNoNul | kernel/src/extra/itoa.c:30-84 | A concrete value, one above the most negative, in base 16: sixteen digits and no NUL behind them |
| Itoa.DigitCount | kernel/src/extra/itoa.c:52-57 | A number has at most n digits if and only if it is below the n-th power of the base |
| Itoa.CountDigits | kernel/src/extra/itoa.c:101-108 | The offset is the table entry less the digit count, plus one |
| Itoa.WriteDigits | kernel/src/extra/itoa.c:114-120 | The digits end at the given index and no other cell changes |
| Itoa.RoundTrip | kernel/src/extra/itoa.c:30-123 | Reading what was written gives the value back, sign included |
| Itoa.ParseDigits | kernel/src/extra/itoa.c:87-123 | Reading the digits of a number gives the number back |
| Itoa.DigitsClean | kernel/src/extra/itoa.c:87-123 | No leading zero, and no NUL or minus sign among the digits |
| Itoa.TableSuffices | kernel/src/extra/itoa.c:9-27 | In every base the table has room for every 64-bit number |
| Itoa.TableTight | kernel/src/extra/itoa.c:9-27 | And for no longer one: the largest 64-bit number has as many digits |
| Itoa.IntStr | kernel/src/extra/std/printf.c:15-45 | The sign asked for, the digits and a NUL; read by a reader of upper-case digits in base 16 and of lower-case ones otherwise, with a plus sign or space skipped, it is the value if and only if the base is not between 11 and 15 or all digits are decimal; a minus sign if and only if the value is negative; the most negative value is where the negation overflows, behind the sign |
| Itoa.ReadingDigits | kernel/src/extra/std/printf.c:15-49 | The digits alone: they read back if and only if there is a digit for each value, and as less otherwise |
| Itoa.FindEnd | kernel/src/extra/std/printf.c:39-43 | The first loop counts the digits |
| Itoa.WriteBackwards | kernel/src/extra/std/printf.c:46-49 | The second loop writes the digits so that they end where the first stopped, and no other cell changes |
| Itoa.IntStrAgrees | kernel/src/extra/std/printf.c:15-49 | The two renderings of a number agree if and only if the base is at most ten or lower-case sixteen, or all its digits are decimal |
| Itoa.TenDiffers | kernel/src/extra/std/printf.c:15-49 | Ten in base 16 is rendered differently |

## Left out

- Pmms.Pmm.Start: stops where the merged list is not settled (`MemoryMaps.Sound`), for instance with an empty section in use, and says nothing of the calls that would follow; gives the free memory as a result, and the later updates of `free_memory` are left out, since most freeing and locking paths make none.
- Ledgers.Serve: covers what the manager does to its list while the list is intact; what happens to it after the owner of the page behind the locked ones has written there is left out.
- Mmus.Mmu.RemapPage: takes the arguments of the inner call from left to right; C leaves their order open.
- Heaps.Heap.Free: covers blocks in use; the source checks nothing.
- Itoa.Itoa: stops where the most negative value is negated, which is undefined in C.
- Itoa.IntStr: leaves out padding, and stops at the same negation.
- KeyBuffers.SharedPage.SaveKey: reads the three statics that say whether the page is claimed as one flag.
- Ps2.Keyboard.Irq: takes the byte in the data port as a parameter, and counts port reads and acknowledgements instead of making them.
- paging_edit_page: it takes every level to be present and says little that mapping does not.
- TLB invalidation, the CR3 load itself and memory outside tables: effects of the machine; only the value for CR3 is kept.
- limine_reinterpret and the rest of the boot code: its result is the memory map that the model starts from.
- pmm_free_pool and pmm_realloc_pool: records are never removed, and the latter stores the page count of a section.
- realloc and calloc: they need the bytes of memory and add nothing to the shape of the heap.
- The listeners of the keyboard and the character decoder: user interface; delivery is a sequence of key codes.
- The choice of the owner of the key page in kb_man.c: whether the page is claimed is a flag that the model does not set.
- Scheduling, the ELF loader, descriptor tables, devices, and the rest of vprintf.
