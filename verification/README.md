# NansOS: a verified model

A Dafny model of the parts of the NansOS kernel that hold real algorithms over changing
state, and proofs of what those parts keep, promise, or fail to promise. Code that updates
memory in place is written as methods over byte arrays and object fields; each method is
proved against a specification function, and the lemmas prove what the kernel is for about
those functions. C integer widths appear where they matter: as `uint16`, `uint32`, `uint64`
and `int32` types, and as explicit remainders where the C code wraps.

| File | Part of the system |
|---|---|
| `Arithmetic.dfy`, `Sequences.dfy`, `Memory.dfy`, `Wrappers.dfy` | division by a variable, concatenation, bytes, little-endian words, `memset`, `memcpy` |
| `Paging.dfy`, `Mapping.dfy` | the processor's four-level walk, the table tree, `mmu_map_page`, `mmu_is_mapped`, `mmu_unmap_page` as functions |
| `Rights.dfy` | the entries they make, and what the processor lets a program do with a page |
| `Mmu.dfy` | the same operations as methods over the RAM array |
| `Boot.dfy` | the page tables the boot code builds |
| `Blocks.dfy`, `Headers.dfy` | the heap as a list of blocks, and that list as 24-byte headers in memory |
| `SharedPages.dfy` | that list while others take pages from the same allocator |
| `Heap.dfy` | `malloc`, `free`, `calloc`, `realloc` over RAM and the page allocator |
| `Line.dfy` | the Bresenham loop and the back buffer |
| `Paths.dfy`, `PathText.dfy`, `PathBuffer.dfy` | path normalisation on strings, its components and its exact text, and in place in a character buffer |
| `Extents.dfy`, `DiskImage.dfy`, `RamDisk.dfy` | the RAM disk's block accounting, its bytes as a map from names to contents, and its methods |
| `Descriptors.dfy` | the file-descriptor table |
| `Format.dfy` | `print_num` and `vsnprintf` |
| `Console.dfy` | the scrolling text console |

The processor's page walk is that of 4-level paging, section 4.5 of the Intel 64 and IA-32
Architectures Software Developer's Manual, Volume 3A: it takes bits 51 to 12 of an entry as a
table's address, where the code takes bits 63 to 12; on a tree of tables they are the same. Its
access rights are those of section 4.6: a right is given if the entries of all levels give it.

## Where the code does not do what is asked of it

The model keeps the code's own steps. These are the places where they fall short, each with
the exact condition or a proof that it happens.

- `mmu_unmap_page` walks from 0x1000 instead of CR3 and has no test for huge pages:
  `Mapping.UnmapExactly` says what a call does to every page in any memory,
  `Mapping.UnmapWorksIff` when it unmaps its own, `Mapping.UnmapSparesOthersIff` when it leaves
  the others alone. `tests/test_mmu.c` cannot pass at boot, since 0x400000 lies under a huge
  page, unless what lies at 0x1000 leads to one of the three words that map it, and not even
  then if CR3 is 0x1000: `Boot.VirtualMappingTestFails`. In that last case the call can destroy
  the mapping of another page: `Boot.UnmapHitsTable`.
- `malloc` takes one page however large the request: `Blocks.MallocTiledIff`,
  `Heap.Heap.Malloc`. The next request that takes a page is then given memory inside the block:
  `Blocks.OversizeOverlapsNext`. `ramdisk_create` makes such requests.
- `malloc` of a size that rounds up to within 56 bytes of 2^64 wraps in the test of
  `split_block`, which then writes a header over its own block's, or before it:
  `Heap.SplitInsideIff`.
- `free` merges with the next block whether or not it is adjacent (`Blocks.MergeExactIff`), and
  page tables come from the same allocator as the heap's pages. While the heap is its only user
  every merge joins adjacent blocks. Else `SharedPages.ApartIff` says, for every run, that a
  block holds foreign bytes exactly if some merge did not, and
  `SharedPages.PageBetweenIsSwallowed` gives the shortest such run: the page between two freed
  blocks is handed out by the next `malloc`.
- A `..` after a `.` or another `..` pops nothing: `Paths.NormalizeIsStdIff`,
  `Paths.RepeatedDotsKeepName`. The comment above the function says it removes `.`, `..` and
  multiple slashes, but a slash after a dot component is kept: a/./b becomes a//b, and ./b
  becomes the absolute /b. `PathText.NormalizeText` gives the text of every result,
  `PathText.DoubleSlashIff` when it holds two slashes in a row, `PathText.GapIsSingleIff` where,
  `PathText.AbsoluteIff` when it is absolute, and `PathText.IdempotentIff` when a second pass
  changes nothing.
- `vfs_mkdir` lets a lookup overwrite the buffer its name lies in; directly below the root the
  name is lost: `PathBuffer.MkdirParent`.
- `ramdisk_write` reserves only the additional blocks of a growing file but puts the whole
  file there: `Extents.WriteLaidIff`, `Extents.GrowthOverlapsNext`, on a new disk
  `Extents.GrowthOverlapsOnNewDisk`. What is written to another file next then shows up in the
  grown one: `DiskImage.NextWriteLandsInGrown`, on a new disk
  `DiskImage.GrowthSpoilsOnNewDisk`. The growing write itself is right on a disk in good order,
  `DiskImage.GrowthRefines`; a later one may copy a file upwards onto itself, and
  `DiskImage.GrowthOverlaysIff` says when that is right.
- `ramdisk_delete_file` counts blocks as free that are never handed out again:
  `Extents.DeleteLaidIff`, `Extents.DeleteThenOverrun`, on a new disk
  `Extents.DeleteOverrunsNewDisk`. Until a write is given blocks past the end nothing is lost:
  `DiskImage.RunRefinesStore`.
- `vsnprintf` returns the length written, where the function of that name in section 7.21.6.12 of
  ISO C11 returns the length of the whole rendering: `Format.Vsnprintf`.
- A line of 81 characters stays on one console row and its last character shows at the start
  of the next: `Console.RowsAreLinesIff`, `Console.ShowsTailIff`, `Console.WideLineSpills`.

## Model

| member | source | states |
|---|---|---|
| `Paging.EntryOfTable` | src/impl/kernel/mmu.c:62-64 | An entry made of a table page and flags below 4096 leads back to that page, is present exactly if bit 0 of the flags is set, and huge exactly if bit 7 is. |
| `Paging.SamePage` | src/impl/kernel/mmu.c:51-54 | Two addresses have all four indices in common exactly when their 36-bit page numbers are equal. |
| `Paging.WalkByTables` | src/impl/kernel/mmu.c:56-88 | In a separated tree the processor's walk of every address is the walk along the tree of tables. |
| `Paging.LeafWrite` | src/impl/kernel/mmu.c:85-88 | One write into one page table changes the walk of exactly one page of the 2^36, to the entry written. |
| `Paging.LeafWriteKeepsTree` | src/impl/kernel/mmu.c:85-88 | That write moves no table and keeps the tree separated. |
| `Paging.AllocKeepsTree` | src/impl/kernel/mmu.c:31-36 | The page allocated is zero, is no table of the tree, and lies below the new allocation limit; tree and walks stay. |
| `Paging.UntouchedKeepsTree` | src/impl/kernel/mmu.c:31-36 | Any change of memory outside the tables keeps every table, the tree and every walk. |
| `Paging.LinkKeepsTree` | src/impl/kernel/mmu.c:58-85 | Linking a zeroed unused page from an absent entry adds exactly that one table to the tree, in one place, and keeps it separated. |
| `Paging.LinkKeepsWalk` | src/impl/kernel/mmu.c:58-85 | Such a link changes the walk of no address. |
| `Mapping.EnsureTableGrows` | src/impl/kernel/mmu.c:58-64 | Ensuring a table at any of the three levels keeps the tree, every table and every walk, and takes a page exactly when there was none. |
| `Mapping.MapPageCorrect` | src/impl/kernel/mmu.c:45-89 | mmu_map_page makes the walk of its page the given entry and leaves the walk of every other page alone, whichever tables it had to create; below 0x400000 and under a huge page it changes nothing; at most three pages are taken and the tree stays separated. |
| `Mapping.MappedAddress` | src/impl/kernel/mmu.c:87-88 | Through a page mapped to an aligned physical page below 2^52 the processor reaches that page, byte for byte. |
| `Mapping.MapPageTakesNext` | src/impl/kernel/mmu.c:58-65 | If the table below the root is missing, the call makes it of the next page. |
| `Mapping.MapPageKeepsTable` | src/impl/kernel/mmu.c:45-89 | No call moves a table that is there. |
| `Mapping.MapOfHuge` | src/impl/kernel/mmu.c:74-77 | Under a huge page the call does nothing at all, whatever the flags and the room. |
| `Mapping.IsMappedIsWalk` | src/impl/kernel/mmu.c:92-113 | mmu_is_mapped is true exactly when the processor's walk ends at a page, small or huge. |
| `Mapping.UnmapCorrect` | src/impl/kernel/mmu.c:116-134 | From root 0x1000 and off huge pages, mmu_unmap_page makes the walk of its page end nowhere and keeps every other walk and the tree. |
| `Mapping.UnmapOfHugeIff` | src/impl/kernel/mmu.c:130-133 | On a huge page of root 0x1000 it zeroes a word at the start of the page itself: every walk stays exactly when no mapped page is reached through that word, and the tree stays too where no table lies there. |
| `Mapping.UnmapExactly` | src/impl/kernel/mmu.c:92-134 | In any memory and under any aligned CR3, for every two pages v and w: unmapping v makes query and walk of w end nowhere exactly if they read the word cleared, and changes them in no other way. |
| `Mapping.UnmapSparesOthersIff` | src/impl/kernel/mmu.c:116-134 | A call leaves the walk of every other page alone exactly when no other mapped page is reached through the word cleared. |
| `Mapping.UnmapWorksIff` | src/impl/kernel/mmu.c:122-133 | On every tree: after mmu_unmap_page the page is unmapped exactly when it was before, or CR3 is 0x1000 and the page is not huge, or the word cleared is by accident one of those its query reads. |
| `Mapping.MapQueryUnmap` | tests/test_mmu.c:29-39 | Map, query and unmap agree: mapped after mapping, unmapped after unmapping from the root unmap uses, and every other page keeps its answer throughout. |
| `Mapping.ExecRefinesMap` | src/impl/kernel/mmu.c:45-134 | One map or unmap operation acts on the walks of all pages as the same operation on a map from page numbers to entries. |
| `Mapping.RunRefinesMap` | src/impl/kernel/mmu.c:13-134 | On every run of such operations the tables are that map, and stay a separated tree. |
| `Rights.BitOrBits` | src/impl/kernel/mmu.c:62 | The or of two words has exactly the bits that one of them has. |
| `Rights.EnsureTablePlace` | src/impl/kernel/mmu.c:58-85 | Ensuring a table makes at most one entry present, with exactly the flags given in its low 12 bits, and leaves every other present entry of every table. |
| `Rights.MapPagePlaces` | src/impl/kernel/mmu.c:56-88 | After mmu_map_page, entry by entry over all tables: the page's own entry is phys or flags; the three entries above it are unchanged if they were present, and else carry exactly the flags; no other present entry is made, lost or changed. |
| `Rights.TopEntryMade` | src/impl/kernel/mmu.c:58-63 | If the entry in the root table was absent, it becomes the next page plus the flags: 0x400003 for the first call after boot with flags 3. |
| `Rights.MapPageRights` | src/impl/kernel/mmu.c:45-89 | After mmu_map_page the page is writable, or open to user programs, exactly if phys or the flags have the bit, the upper entries that were present have it, and the flags have it if one was made; every other page keeps its rights. |
| `Rights.MappedRightsIff` | src/impl/kernel/mmu.c:45-89 | For an aligned physical address: exactly if the flags and the upper entries present before have the bit. |
| `Rights.UnmapRights` | src/impl/kernel/mmu.c:116-134 | Unmapping from root 0x1000, off huge pages, takes all rights from the page and changes those of no other. |
| `Rights.RunKeepsRights` | src/impl/kernel/mmu.c:13-134 | On every legal run a page keeps its rights until a call maps or unmaps that page. |
| `Rights.BootRights` | src/impl/x86_64/boot/main.asm:95-136 | At boot exactly the pages below 2 GiB are writable, and no page is open to user programs. |
| `Mmu.Mmu.constructor` | src/impl/kernel/mmu.c:13 | Allocation starts at 0x400000. |
| `Mmu.Mmu.AllocPage` | src/impl/kernel/mmu.c:31-36 | The method on the RAM array does what the specified allocation does: it returns and zeroes the next page. |
| `Mmu.Mmu.EnsureTable` | src/impl/kernel/mmu.c:58-64 | The method has the specified effect on RAM and the allocator, with one page of room. |
| `Mmu.Mmu.MapPage` | src/impl/kernel/mmu.c:45-89 | The method has the effect proved correct by Mapping.MapPageCorrect, on the whole RAM. |
| `Mmu.Mmu.IsMapped` | src/impl/kernel/mmu.c:92-113 | The method returns whether the processor's walk of the address ends at a page. |
| `Mmu.Mmu.UnmapPage` | src/impl/kernel/mmu.c:116-134 | The method has the effect on the whole RAM that Mapping.UnmapCorrect and Mapping.UnmapWorksIff speak of. |
| `Boot.StoreEax` | src/impl/x86_64/boot/main.asm:97-109 | A 32-bit store into a zero entry sets the whole 64-bit entry. |
| `Boot.LinkTables` | src/impl/x86_64/boot/main.asm:96-109 | The three links are stored and nothing else in the four tables. |
| `Boot.MapP2Table1` | src/impl/x86_64/boot/main.asm:112-121 | The first loop fills all 512 entries of the first directory with huge entries for consecutive 2 MiB pages and leaves the other tables alone. |
| `Boot.MapP2Table2` | src/impl/x86_64/boot/main.asm:124-134 | The second loop does so from 1 GiB on for the second directory. |
| `Boot.SetUpPageTables` | src/impl/x86_64/boot/main.asm:95-136 | From zeroed tables the code builds the complete boot tables. |
| `Boot.BootIsTree` | src/impl/x86_64/boot/main.asm:95-136 | The boot tables are a separated tree below 0x400000: the invariant of the mapping proofs holds to begin with. |
| `Boot.BootIsIdentity` | src/impl/x86_64/boot/main.asm:95-136 | Addresses whose low 48 bits are below 2 GiB translate to those bits through a huge entry; every other address translates to nothing. |
| `Boot.BootQueries` | src/impl/kernel/mmu.c:45-113 | Until something is mapped, mmu_is_mapped holds for exactly those addresses, and mmu_map_page there changes nothing. |
| `Boot.VirtualMappingTestFails` | tests/test_mmu.c:23-42 | For the address of the test, and any below 2 GiB, mapping changes nothing after boot and the page is mapped before; after unmapping it still is, exactly unless the word cleared is one of the three words that map it, which it never is from 0x400000 on if CR3 is 0x1000; so the last assertion of the test fails. |
| `Boot.UnmapHitsTable` | src/impl/kernel/mmu.c:116-134 | With CR3 at 0x1000 and nothing taken since boot: map any page beyond the first 512 GiB, say 0x8000000000, then unmap the low page from 0x400000 on that has its third index as number; the high page is gone, and the low one is still mapped. |
| `Memory.MemSet` | src/impl/kernel/string.c:20-26 | Exactly the n bytes from the address on become the low byte of the value. |
| `Memory.MemCpy` | src/impl/kernel/string.c:11-18 | Between two buffers exactly the n bytes are replaced; within one buffer the bytes are copied in ascending order. |
| `Memory.CopyUpByte` | src/impl/kernel/string.c:11-18 | Every byte after a copy within one buffer: a copy upwards that overlaps repeats the bytes before its destination, with their distance as period. |
| `Memory.CopyUpIsPatch` | src/impl/kernel/string.c:11-18 | Without such an overlap the bytes arrive as they were, and nothing else changes. |
| `Blocks.TiledSum` | src/impl/kernel/stdlib.c:11-16 | In a tiled heap the sizes with their headers add up to the memory from the first page to the end. |
| `Blocks.PayloadsDisjoint` | src/impl/kernel/stdlib.c:100-101 | No payload byte of one block lies in another block. |
| `Blocks.FirstFitIsLowest` | src/impl/kernel/stdlib.c:32-39 | The block found is the lowest-addressed free block that is large enough. |
| `Blocks.SplitTiled` | src/impl/kernel/stdlib.c:42-52 | split_block keeps the heap tiled. |
| `Blocks.FreeTiled` | src/impl/kernel/stdlib.c:104-116 | free, with its merge, keeps the heap tiled. |
| `Blocks.MallocTiledIff` | src/impl/kernel/stdlib.c:54-102 | malloc keeps the heap tiled exactly when a free block fits or the request fits one page. |
| `Blocks.MallocTiledTo` | src/impl/kernel/stdlib.c:54-102 | However large the request, the list has no gaps afterwards, and ends behind the block made. |
| `Blocks.OversizeOverlapsNext` | src/impl/kernel/stdlib.c:75-91 | After a request larger than a page that found no fit, whatever has happened since but freeing it, the next malloc that takes a page returns a live block that starts inside its payload. |
| `Blocks.MallocLive` | src/impl/kernel/stdlib.c:94-101 | malloc adds exactly one block to the live ones, new and at least as large as asked. |
| `Blocks.MallocExactly` | src/impl/kernel/stdlib.c:32-102 | malloc of n bytes takes the first free block of at least n bytes, else a new last one of 4072 bytes, or n if that is more. If that block has n + 56 bytes or more, it keeps exactly n and the rest, less 24 bytes, is a free block behind it; else it keeps its size. All other blocks stay, and n <= size < n + 56. |
| `Blocks.TwoFromOnePage` | src/impl/kernel/stdlib.c:42-52 | On a new heap a second request that fits the first page gets the block right behind the first, and no page is taken. |
| `Blocks.FreeLive` | src/impl/kernel/stdlib.c:104-116 | free removes exactly the block given from the live ones, merge or not. |
| `Blocks.FreeExactly` | src/impl/kernel/stdlib.c:104-116 | free marks its block, adds the next one and its header to it exactly if that is free, and leaves all others. |
| `Blocks.ShrinkLive` | src/impl/kernel/stdlib.c:134-139 | realloc in place replaces the block by one at the same address, no larger than it was and large enough. |
| `Blocks.SplitExactly` | src/impl/kernel/stdlib.c:42-52 | Cutting a block to n bytes, as realloc does in place: from n + 56 bytes on it keeps n and a free block of the rest less 24 bytes follows; else nothing changes. |
| `Blocks.MergeExactIff` | src/impl/kernel/stdlib.c:112-115 | The merged block covers exactly the bytes of the two exactly when they are adjacent. |
| `Blocks.RunKeepsTiling` | src/impl/kernel/stdlib.c:32-139 | Every interleaving of malloc, free and in-place realloc keeps the heap tiled, and the block sizes grow by 4096 times the pages taken. |
| `SharedPages.ApartIff` | src/impl/kernel/stdlib.c:104-116 | On every run of malloc, free, in-place realloc and page requests by others, the blocks stay in order on the pages taken, and no block holds a foreign byte exactly when every merge of the run joined adjacent blocks; then each byte taken belongs to one block or to the others. |
| `SharedPages.SwallowedForGood` | src/impl/kernel/stdlib.c:104-116 | Once a block holds a foreign byte, and no byte up to it is lost, some block holds one for ever. |
| `SharedPages.SoleUserJoins` | src/impl/kernel/stdlib.c:104-116 | Without pages for others every merge of every run joins adjacent blocks. |
| `SharedPages.PageBetweenIsSwallowed` | src/impl/kernel/stdlib.c:112-115 | malloc of 4072, a page for somebody else, malloc of 4072, both freed, the second first: one free block of 8168 bytes remains, and the next malloc of that size is handed all of the foreign page. |
| `Headers.LinkedOfSplit` | src/impl/kernel/stdlib.c:42-52 | Two headers, one written inside the other's block, make the memory hold the split list. |
| `Headers.LinkedOfMerge` | src/impl/kernel/stdlib.c:112-115 | One header written over makes the memory hold the merged list. |
| `Heap.AlignIff` | src/impl/kernel/stdlib.c:58 | Rounding up to eight gives a multiple of eight, at least the size exactly when the addition does not wrap, and then less than eight more. |
| `Heap.SplitInsideIff` | src/impl/kernel/stdlib.c:42-52 | Computed on 64 bits, the block split_block makes lies inside the payload of the one it splits exactly if its test fails or the sum in the test does not wrap. |
| `Heap.Heap.constructor` | src/impl/kernel/stdlib.c:19 | A heap without blocks is a good heap. |
| `Heap.Heap.FindFreeBlock` | src/impl/kernel/stdlib.c:32-39 | Walking the headers finds the first fit of the list, null if there is none, and the block before it. |
| `Heap.Heap.SplitBlock` | src/impl/kernel/stdlib.c:42-52 | The memory holds the split list afterwards, and only the two headers have changed. |
| `Heap.Heap.LinkNewBlock` | src/impl/kernel/stdlib.c:80-91 | A page is taken and linked behind the last block; outside that page only the last header changes. |
| `Heap.Heap.Malloc` | src/impl/kernel/stdlib.c:54-102 | The list becomes the specified one, the pointer is the payload of the taken block, a page is taken exactly when none fits, the heap stays good exactly under the condition of Blocks.MallocTiledIff and is else still a list without gaps, and no live byte changes. |
| `Heap.Heap.Free` | src/impl/kernel/stdlib.c:104-116 | On any list without gaps, good or not: it stays one, the list becomes the specified one, no page is taken and no live byte changes. |
| `Heap.Heap.Calloc` | src/impl/kernel/stdlib.c:118-125 | With the product taken modulo 2^64, null exactly for a product of zero; else a fresh live block whose bytes are all zero; no live byte changes, larger requests than a page included; the heap stays good exactly as after malloc. |
| `Heap.Heap.MallocFresh` | src/impl/kernel/stdlib.c:54-102 | malloc returns a live block inside RAM with at least the bytes asked for, as long as there is memory for it. |
| `Heap.Heap.Shrink` | src/impl/kernel/stdlib.c:134-139 | realloc in place keeps the bytes kept and every byte of every other live block. |
| `Heap.Heap.Move` | src/impl/kernel/stdlib.c:141-149 | realloc that moves copies the whole old payload, frees the old block and changes no live byte; the heap stays good exactly as after malloc. |
| `Heap.Heap.Realloc` | src/impl/kernel/stdlib.c:127-150 | In all cases, larger blocks than a page included: null exactly for size 0, the specified list and pointer, the first min(old, new) bytes kept, and no byte of another live block changed; the heap stays good unless a block had to be made that does not fit a page. |
| `Line.MinorStep` | src/impl/drivers/video/vga.c:145-147 | The minor step is due exactly when the remainder overflows, and the remainder stays in range. |
| `Line.HalfPixel` | src/impl/drivers/video/vga.c:139-147 | After k major steps twice the distance to the ideal line, measured in major units, is at most the major length. |
| `Line.ErrStart` | src/impl/drivers/video/vga.c:139 | The closed form of the error starts where the code starts, with division towards zero of a negative number. |
| `Line.ErrInRange` | src/impl/drivers/video/vga.c:139-147 | The error stays in [0, dx) on flat lines and in (-dy, 0] on steep ones. |
| `Line.LoopStep` | src/impl/drivers/video/vga.c:145-147 | The two tests of the loop body take every point and error of the line to the next. |
| `Line.LineIsRun` | src/impl/drivers/video/vga.c:134-149 | For all endpoints the run reaches the second endpoint at its last point and not before, and no coordinate leaves 16 bits. |
| `Line.LineEnds` | src/impl/drivers/video/vga.c:142-148 | The first point is the first endpoint, and the point after exactly max(dx, dy) steps is the second, at no other step. |
| `Line.LineInBox` | src/impl/drivers/video/vga.c:142-148 | Every point lies in the box of the endpoints. |
| `Line.LineConnected` | src/impl/drivers/video/vga.c:145-147 | Consecutive points are different 8-neighbours. |
| `Line.LineHalfPixel` | src/impl/drivers/video/vga.c:134-149 | Every point is within half a pixel of the ideal line along the minor axis. |
| `Line.LineExactly` | src/impl/drivers/video/vga.c:135-148 | The k-th point is the one k steps along the major axis whose distance from the ideal line is less than half a pixel, or half a pixel on the side of the start. |
| `Line.PlotAllMeaning` | src/impl/drivers/video/vga.c:114-122 | Where rows do not overlap, byte y * pitch + x of a pixel on the screen has the colour exactly if the pixel is among the points plotted, and is else as before. |
| `Line.PlotAllBytes` | src/impl/drivers/video/vga.c:114-122 | In any mode exactly the bytes y * pitch + x of the points with x below the width and y below the height change. |
| `Line.Vga.Mode13h` | src/impl/drivers/video/vga.c:84-89 | The 320x200 mode starts with a clear buffer whose rows fit it. |
| `Line.Vga.SetPixel` | src/impl/drivers/video/vga.c:114-122 | Byte y * pitch + x takes the colour if x is below the width and y below the height; no other byte changes. |
| `Line.Vga.DrawLine` | src/impl/drivers/video/vga.c:134-150 | Exactly the points of the line are plotted, in order; where rows do not overlap, byte y * pitch + x of the back buffer has the colour exactly if (x, y) is one of them. |
| `Line.Vga.FittingLine` | src/impl/drivers/video/vga.c:134-149 | In a mode that fits the back buffer every line may be drawn. |
| `Line.Vga.NextPixel` | src/impl/drivers/video/vga.c:145-147 | The loop body computes the next point and error of the run with 16-bit wrap-around that never happens. |
| `Paths.Normalize` | src/impl/kernel/fs.c:27-75 | Normalisation ends for every path, and the result is not empty and no longer than the path, or one character. |
| `Paths.NormalizeComps` | src/impl/kernel/fs.c:40-68 | The components of the result are the fold over the components of the path in which `.` is dropped, a name is pushed, and `..` pops exactly when the component right before it is ordinary. |
| `Paths.NormalizeIsStdIff` | src/impl/kernel/fs.c:48-62 | That agrees with the usual reading of `..` exactly when no `..` that does not follow an ordinary component has something to pop. |
| `Paths.NoRepeatedDotsSuffices` | src/impl/kernel/fs.c:48-62 | So it does for every path in which no `..` directly follows `.` or `..`. |
| `Paths.RepeatedDotsKeepName` | src/impl/kernel/fs.c:42-62 | The path a/b/../.. keeps a for any two names, while the usual reading leaves nothing. |
| `Paths.NormalizeIsDotFree` | src/impl/kernel/fs.c:49-62 | No component of a result is `.` or `..`. |
| `Paths.AbsoluteStaysAbsolute` | src/impl/kernel/fs.c:35-62 | An absolute path stays absolute however many `..` it holds. |
| `Paths.NormalizeDotFree` | src/impl/kernel/fs.c:35-72 | On a path without dots only slashes change: the names joined by single slashes after none, one or two in front. |
| `Paths.DotFreeIdempotent` | src/impl/kernel/fs.c:27-75 | On such paths normalisation is idempotent. |
| `Paths.SecondPassIsFixed` | src/impl/kernel/fs.c:82 | A second pass over any result reaches a fixed point. |
| `PathText.NormalizeText` | src/impl/kernel/fs.c:27-75 | The exact text of every result: which names are kept, how many slashes stay in front of each, and how many at the end. |
| `PathText.DoubleSlashIff` | src/impl/kernel/fs.c:42-45 | A result holds two slashes in a row exactly when some gap of that text holds more than one. |
| `PathText.IdempotentIff` | src/impl/kernel/fs.c:27-75 | For every path, a second pass changes nothing exactly when the text has one slash between names, at most two in front, and none at the end. |
| `PathText.AbsoluteIff` | src/impl/kernel/fs.c:35-73 | A result is absolute exactly when the path is empty or absolute, or some of its components, from the first on, leave no name. |
| `PathText.GapIsSingleIff` | src/impl/kernel/fs.c:40-68 | The gap kept in front of a name that is kept behind others is one slash exactly if the component right before the name is neither . nor `..`. |
| `PathText.DotMakesAbsolute` | src/impl/kernel/fs.c:42-53 | The relative path ./n becomes the absolute /n for every name n. |
| `PathText.DotLeavesDouble` | src/impl/kernel/fs.c:42-53 | The path a/./b becomes a//b, and a second pass makes it a/b. |
| `PathText.DotDotPops` | src/impl/kernel/fs.c:54-60 | a/b/../c becomes a//c for all names: `..` takes back the name before it and leaves the slash. |
| `PathText.SlashesBefore` | src/impl/kernel/fs.c:34-46 | Of any number of slashes in front of a name two stay at most. |
| `PathText.SlashesBehind` | src/impl/kernel/fs.c:42-46 | Slashes behind a name go. |
| `PathBuffer.NormalizePath` | src/impl/kernel/fs.c:27-75 | The two-cursor rewrite leaves the normal form in the buffer, also when the path is in that same buffer, and writes nothing beyond the length of the path, or the second character. |
| `PathBuffer.Rewrite` | src/impl/kernel/fs.c:40-68 | Whatever the turns of the loop keep holds at its end, and the write cursor never passes the read cursor. |
| `PathBuffer.Turn` | src/impl/kernel/fs.c:40-68 | One turn over the buffer is the specified turn on strings, and leaves what is still to be read intact. |
| `PathBuffer.PopAt` | src/impl/kernel/fs.c:54-60 | The backward scan cuts the last component of what was written. |
| `PathBuffer.LastSlash` | src/impl/kernel/fs.c:296-299 | strrchr finds a slash exactly when there is one, and no slash follows it. |
| `PathBuffer.MkdirParent` | src/impl/kernel/fs.c:293-302 | vfs_mkdir looks its parent up under the normal form of the part before the last slash, and its name is still in the buffer afterwards exactly when the slash is not the first character, or the path is the root. |
| `PathBuffer.MkdirComps` | src/impl/kernel/fs.c:293-302 | Parent and name are together the components of the normalised path. |
| `Extents.RunConserves` | src/impl/kernel/ramdisk.c:108-239 | On every run of create, write and delete, refused or not, growth included, the block counts of the files in use and the free blocks add up to the total, and names in use are distinct. |
| `Extents.RequiredIsEnough` | src/impl/kernel/ramdisk.c:219 | The block number computed is the least that holds the end of the write, for ends within 32-bit block numbers. |
| `Extents.CreateSpread` | src/impl/kernel/ramdisk.c:120-155 | Creating keeps the extents disjoint and below the free space, and the free blocks in step with it. |
| `Extents.CreateExactly` | src/impl/kernel/ramdisk.c:120-155 | A name of less than 32 characters that no file has gets an empty file with the flags given, in the first free slot; in every other case nothing changes. |
| `Extents.WriteKeepsFlags` | src/impl/kernel/ramdisk.c:209-252 | Writing keeps the names and flags of all files. |
| `Extents.DeleteSpread` | src/impl/kernel/ramdisk.c:158-179 | Deleting any file keeps the extents disjoint and below the free space. |
| `Extents.WriteSpreadIff` | src/impl/kernel/ramdisk.c:219-246 | A write that succeeds keeps them so exactly when it does not need new blocks for a file that already has some, and takes none past the end of the disk. |
| `Extents.WriteLaidIff` | src/impl/kernel/ramdisk.c:219-246 | With free blocks and free space in step, it does so, and keeps them in step, exactly when it does not grow a file with blocks. |
| `Extents.DeleteLaidIff` | src/impl/kernel/ramdisk.c:158-179 | Deleting keeps free blocks and free space in step exactly when the file has no blocks. |
| `Extents.GrowthOverlapsNext` | src/impl/kernel/ramdisk.c:222-238 | After a file has grown, the next file to get blocks always overlaps it. |
| `Extents.GrowthOverlapsOnNewDisk` | src/impl/kernel/ramdisk.c:222-238 | It happens from a new disk on: one block for a, a second for a, and one for b, and a and b share a block. |
| `Extents.DeleteThenOverrun` | src/impl/kernel/ramdisk.c:168-172 | After a file with blocks has been deleted, a file that takes all free blocks runs past the end of the disk. |
| `Extents.DeleteOverrunsNewDisk` | src/impl/kernel/ramdisk.c:168-172 | It happens from a new disk on: one block for a, a deleted, and all free blocks for b. |
| `DiskImage.CreateRefines` | src/impl/kernel/ramdisk.c:120-155 | In the map from names to contents, creating adds an empty file or is refused, and changes nothing else. |
| `DiskImage.DeleteRefines` | src/impl/kernel/ramdisk.c:158-179 | Deleting any file removes its name and nothing else. |
| `DiskImage.WriteRefines` | src/impl/kernel/ramdisk.c:209-252 | A write that succeeds lays exactly its bytes over the named file, zeros in any gap, and changes no other file. |
| `DiskImage.HoleIsZero` | src/impl/kernel/ramdisk.c:54-59 | Behind the last byte of a file its blocks are zero, old or new. |
| `DiskImage.ReadOfOverlay` | src/impl/kernel/ramdisk.c:182-252 | Reading where was written gives back the bytes written. |
| `DiskImage.ReadSliceBytes` | src/impl/kernel/ramdisk.c:190-203 | A read delivers the bytes of the content from the offset on, as many as asked for or as there are. |
| `DiskImage.RunRefinesStore` | src/impl/kernel/ramdisk.c:108-252 | On every run the disk is a map from names to contents and the same operations succeed, as told by the map, the number of free blocks and the next block alone, as long as no file with blocks grows and no allocation passes the end of the disk; deleting files of any size included. |
| `DiskImage.SameOutcome` | src/impl/kernel/ramdisk.c:124-138 | Whether an operation succeeds follows from the length of the name, the names there are and their number, and the blocks left. |
| `DiskImage.FreshStandsForEmpty` | src/impl/kernel/ramdisk.c:54-59 | The new disk is the empty map with all blocks free. |
| `DiskImage.BalancedKeeping` | src/impl/kernel/ramdisk.c:108-117 | As long as no file with blocks has been deleted no allocation passes the end of the disk. |
| `DiskImage.GrowthOverlaysIff` | src/impl/kernel/ramdisk.c:222-246 | On any disk, a write that grows a file overlays the file's own content exactly when the move, upwards onto itself or not, keeps the bytes that are not written over, and the gap before the write comes to lie on zeros. |
| `DiskImage.GrowthRefines` | src/impl/kernel/ramdisk.c:222-246 | On a disk in good order a write that grows a file overlays its content and changes no other file. |
| `DiskImage.NextWriteLandsInGrown` | src/impl/kernel/ramdisk.c:222-246 | After that, the first bytes written to any other empty file come to lie over the content of the grown one, from the first of the blocks on that were taken for it last. |
| `DiskImage.GrowthSpoilsOnNewDisk` | src/impl/kernel/ramdisk.c:222-246 | It happens from a new disk on: 512 bytes and then 1024 bytes are written to a, and 512 to b, and the second half of a is what was written to b. |
| `DiskImage.FreshDiskIsGood` | src/impl/kernel/ramdisk.c:54-59 | The disk starts in good order, accounted for, and without files: 64 slots, 2048 blocks of 512 bytes. |
| `DiskImage.GoodReadInBounds` | src/impl/kernel/ramdisk.c:201-202 | On a disk in good order every read stays on the disk. |
| `DiskImage.PlainWriteInBounds` | src/impl/kernel/ramdisk.c:230-242 | So does every write that does not grow a file. |
| `RamDisk.RamDisk.constructor` | src/impl/kernel/ramdisk.c:46-59 | The disk is made as specified. |
| `RamDisk.RamDisk.FindFreeFile` | src/impl/kernel/ramdisk.c:88-95 | The loop finds the first slot not in use. |
| `RamDisk.RamDisk.FindFileByName` | src/impl/kernel/ramdisk.c:98-105 | The loop finds the first slot in use with the name. |
| `RamDisk.RamDisk.AllocateBlocks` | src/impl/kernel/ramdisk.c:108-117 | Blocks are handed out in order, on 32 bits, or refused without any change. |
| `RamDisk.RamDisk.CreateFile` | src/impl/kernel/ramdisk.c:120-155 | The method creates as specified and returns -1 exactly for a long name, a name in use, or a full table. |
| `RamDisk.RamDisk.DeleteFile` | src/impl/kernel/ramdisk.c:158-179 | The method deletes as specified and returns -1 exactly for an unknown name. |
| `RamDisk.RamDisk.Read` | src/impl/kernel/ramdisk.c:182-206 | The method delivers the slice of the content that the request covers, at the start of the buffer, and changes nothing else. |
| `RamDisk.RamDisk.Write` | src/impl/kernel/ramdisk.c:209-252 | The method writes as specified, growth and its move included, and is refused exactly when the name is unknown or the blocks are not free. |
| `RamDisk.RamDisk.Reserve` | src/impl/kernel/ramdisk.c:219-239 | The block part of a write moves the old content and leaves everything alone if refused. |
| `Descriptors.ChunkedIsWhole` | src/impl/kernel/fs.c:224-240 | However reads of one descriptor are cut into sizes and interleaved with reads of others, together they deliver the slice of the whole size from its offset on. |
| `Descriptors.Vfs.FindFreeFd` | src/impl/kernel/fs.c:167-174 | The lowest of the 256 descriptors that is not in use, or -1 if all are. |
| `Descriptors.Vfs.Open` | src/impl/kernel/fs.c:177-202 | The lowest free descriptor gets the node at offset 0; otherwise -1 and no change. |
| `Descriptors.Vfs.Close` | src/impl/kernel/fs.c:205-221 | An open descriptor is cleared; otherwise -1 and no change. |
| `Descriptors.Vfs.Read` | src/impl/kernel/fs.c:224-240 | The bytes delivered are the specified ones, and only this descriptor moves, by their number; at the end nothing is delivered and no offset moves. |
| `Descriptors.Vfs.Write` | src/impl/kernel/fs.c:243-259 | The disk is written at the offset, and only this descriptor moves, if the write succeeds. |
| `Descriptors.Vfs.Seek` | src/impl/kernel/fs.c:262-290 | Whence 0 asks for the offset given, 1 for the old offset plus it, 2 for the size plus it. If that sum fits 64 bits with a sign and lies in 0 to the size, it is returned and becomes the offset; for another whence or sum the result is -1 and no descriptor moves. |
| `Descriptors.Signed64Iff` | src/impl/kernel/fs.c:268-279 | The number kept in 64 bits is the sum itself exactly when that fits with a sign, and always a multiple of 2^64 away. |
| `Format.DigitCount` | src/impl/kernel/string.c:159-162 | k digits are enough exactly for the numbers below base to the k. |
| `Format.ValueOfDigits` | src/impl/kernel/string.c:159-162 | Reading the digits of a number in either alphabet gives the number back. |
| `Format.DigitLoop` | src/impl/kernel/string.c:158-162 | The loop leaves the digits in the buffer, last first, one for each digit. |
| `Format.CopyReversed` | src/impl/kernel/string.c:169-172 | The reversing copy puts out the buffer last first, as far as it fits. |
| `Format.PrintNum` | src/impl/kernel/string.c:153-173 | print_num writes exactly the padded text at the cursor, and nothing else. |
| `Format.PrintNumReadsBack` | src/impl/kernel/string.c:153-173 | Without its fill the text reads back as the number, in base 10 and 16, filled with zeros or with non-digits. |
| `Format.PrintNumWidth` | src/impl/kernel/string.c:164-167 | The text is as long as the width or the digits of the number, whichever is more. |
| `Format.PrintNumShape` | src/impl/kernel/string.c:153-173 | The text is fill characters, only as many as are missing for the width, and then upper-case digits without a leading zero that read back as the number. |
| `Format.Vsnprintf` | src/impl/kernel/string.c:261-332 | For size n > 0, exactly the first n - 1 characters of the unbounded rendering, then a NUL, nothing beyond, and the number of characters written; for size 0 nothing. |
| `Format.PutNext` | src/impl/kernel/string.c:267-328 | One turn of the loop keeps the output a prefix of the rendering, and complete as long as there is room. |
| `Format.PutInt` | src/impl/kernel/string.c:284-304 | Conversion d puts out the decimal text of every int above INT_MIN, as far as it fits. |
| `Format.DecimalReadsBack` | src/impl/kernel/string.c:284-304 | That text reads back as the number. |
| `Format.LiteralRendering` | src/impl/kernel/string.c:268-271 | A format without percent signs is its own rendering. |
| `Format.StringRendering` | src/impl/kernel/string.c:277-283 | %s renders its string. |
| `Format.IntRendering` | src/impl/kernel/string.c:284-304 | %d renders a minus sign for a negative int, and then decimal digits without a leading zero that read back as its size. |
| `Format.HexRendering` | src/impl/kernel/string.c:305-322 | %x renders lower-case hexadecimal digits without a leading zero that read back as its unsigned int. |
| `Format.OtherRendering` | src/impl/kernel/string.c:323-326 | Any other character behind a percent sign renders as itself and takes no argument. |
| `Format.RenderConcat` | src/impl/kernel/string.c:267-328 | Two formats joined render as their renderings joined, the second with the arguments the first left over. |
| `Console.Console.ClearRow` | src/impl/x86_64/print.c:17-26 | Exactly the cells of the row become blanks. |
| `Console.Console.PrintClear` | src/impl/x86_64/print.c:28-32 | All cells become blank wherever the cursor is, and the cursor stays. |
| `Console.Console.Scroll` | src/impl/x86_64/print.c:42-47 | Every cell but those of the last row takes the one a row below. |
| `Console.Console.PrintNewline` | src/impl/x86_64/print.c:34-50 | A new row is begun and the screen shows the last 25 rows again, with or without scrolling; row <= 24 and col <= 81. |
| `Console.Console.PrintChar` | src/impl/x86_64/print.c:52-68 | The rows become the specified ones, wrapping after an 81st character, and the screen shows the last 25; row <= 24 and col <= 81. |
| `Console.Console.PrintStr` | src/impl/x86_64/print.c:70-74 | So after any string, through any number of scrolls. |
| `Console.Console.ClearAndPrint` | src/impl/x86_64/print.c:28-74 | After print_clear at the first cell and any number of print_str calls the rows are the lines of the joined text cut after every 81 characters, and, if no line has more than 80, the cells of the buffer are its last 25 lines. |
| `Console.ShownScrolled` | src/impl/x86_64/print.c:42-49 | After scrolling, each cell shows what the one below showed, and the last row blanks. |
| `Console.ShownPut` | src/impl/x86_64/print.c:62-67 | One character changes one cell of what is shown, that at the cursor. |
| `Console.RowsAreChunks` | src/impl/x86_64/print.c:52-74 | For all text the rows are its lines cut after every 81 characters. |
| `Console.RowsAreLinesIff` | src/impl/x86_64/print.c:58-60 | They are its lines exactly when no line has more than 81 characters. |
| `Console.ExtendConcat` | src/impl/x86_64/print.c:70-74 | Printing one string after another leaves the rows of the two joined. |
| `Console.ExtendAllConcat` | src/impl/x86_64/print.c:70-74 | So does printing any number of strings. |
| `Console.LinesJoin` | src/impl/x86_64/print.c:53-56 | Joined by line breaks the lines are the text again. |
| `Console.LinesUnbroken` | src/impl/x86_64/print.c:53-56 | No line holds a line break, so the lines are the only such split of the text. |
| `Console.ShowsTailIff` | src/impl/x86_64/print.c:58-67 | The screen is the tail of the rows exactly when no 81st character other than a blank is left at the start of an empty row on it. |
| `Console.ConsoleShowsTail` | src/impl/x86_64/print.c:52-74 | For text without a line of more than 80 characters the screen is the last 25 lines, padded with blanks. |
| `Console.CellsShowTail` | src/impl/x86_64/print.c:28-74 | So are the cells of the buffer after a cleared screen and any number of prints, with the current colour. |
| `Console.WideLineSpills` | src/impl/x86_64/print.c:58-67 | A line of 81 characters shows its last one on the next row too, so 80 is the limit. |

## Left out

- Hardware: port I/O, interrupt controllers, timers, clock, serial, disk, keyboard and mouse
  drivers, and the mode registers that `vga_set_mode` sets.
- Interrupt tables, keymaps, mouse packets, the storage registry, window stacking, the desktop,
  the setup wizard and other user interface.
- CPU mode switching, CPUID checks and the GDT of the boot code.
- Mount points: nothing can be mounted, so a lookup finds the root or nothing. `Descriptors`
  takes the node a lookup found as given, with the RAM disk behind it and no `open` or `close`
  hook.
- `snprintf`, `vsprintf` and `strdup`, and `print_num` of a negative `%d`.
- Time stamps of files, which are always zero, and messages printed on the way.
- `print_set_color`: the colour stays what it was when printing began.
- Memory outside the modelled RAM: `Paging.Entry` reads it as 0 and `Paging.SetEntry` stores
  nothing there, and the allocators require that the pages they take exist; the C code has no
  such test.
- The `%` of a format that ends in it, a `%d` of INT_MIN, arguments that do not fit their
  conversion, and print_num with a width above 65: undefined in C, excluded by preconditions.
- `vsnprintf` results above 2^31 - 1, which do not fit its int result.
- Heap.Heap.Malloc: not stated for sizes so near 2^64 that rounding them up and adding a header
  wraps; AlignIff and SplitInsideIff give the bounds and what goes wrong there.
- Heap.Heap.Calloc, like MallocFresh, Move and Realloc: malloc's bounds, and the memory of a
  block larger than a page must exist, as bytes are cleared or copied there. Like Malloc they
  are called on a good heap, so not again after a request that was too large;
  Blocks.OversizeOverlapsNext says what a second call may return. `RamDisk` has its own array
  and does not depend on the heap.
- Heap.Heap, all methods: the heap is the only user of the page allocator. `SharedPages` covers
  other users on the list of blocks, not on the headers in memory.
- Line.Vga.DrawLine: lines with a visible pixel outside the back buffer, which exist in 640x480x16
  only. There the pitch is half the width while x is not halved, so pixels also share bytes.
- PathBuffer.NormalizePath: paths must fit the buffer; the code does not test for more than
  255 characters.
- RamDisk.RamDisk.Write: stores that would leave the disk are excluded by a precondition;
  DiskImage.PlainWriteInBounds shows that no write of a run of DiskImage.RunRefinesStore is.
- RamDisk.RamDisk.Reserve: likewise, a move of a growing file from or to beyond the disk.
- DiskImage.FirstByte: `block_start * RAMDISK_BLOCK_SIZE` is a product on 32 bits in the source
  (src/impl/kernel/ramdisk.c:201, 241) and does not wrap here, so extents that start at block
  2^23 or beyond, which the source maps back onto the disk, count as off the disk.
- RamDisk.RamDisk.Read: a file whose extent leaves the disk, and a request from inside the file
  whose end wraps 64 bits, which would copy nearly all of memory.
- Descriptors.Vfs.Seek: signed overflow, undefined in C, is taken as two's complement.
- Mapping.MapPageCorrect: flags must be below 4096, present and not huge, and three pages of
  room are asked for even where fewer are taken.
