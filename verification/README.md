# The memory of a small virtual machine

BufferVM runs a program under a small guest kernel. This project models the parts of it that keep track of memory, and
proves what they keep:

* **The areas of an address space** (`kernel/c/vma.c`, `kernel/c/mmap.c`, `kernel/c/rbtree.c`, `common/vma.c`). One set of
  areas is held as a sorted doubly linked list, as a red-black tree with parent pointers, and as cached gaps: each node
  knows the widest hole before any node of its subtree. `syscall_munmap`, `mmap_region` and `do_brk` change all three by
  pointer surgery. They are proved, over any run, to refine a plain set of records and a plain memory; `find_next_gap` is
  proved to find the highest free start although it looks only where a cached gap promises room.
* **The host side** (`vm/vma.c`, `vm/paging.c`). A resized anonymous area is given fresh frames and its old contents are
  moved there; a file is mapped again. Which page reads what after each call is stated exactly, with the two cases in which
  something is lost. Below that, the four levels of page tables are modelled byte by byte in a flat memory and proved to
  refine a plain map from pages to entries.
* **The K&R allocator** (`example-program/alloc.c`). One address-ordered cycle of free blocks, and every unit obtained with
  exactly one owner, through splitting, coalescing on both sides and the growth of the heap. Its loops have no visible bound;
  they are proved to end.
* **The first stack of a program** (`kernel/c/kernel.c`) and **version tags** (`kernel/c/version.c`, `libc/version.c`).

Objects that the source updates in place are classes (`VmArea`, `AddressSpace`, `Host`, `PhysicalMemory`, `Heap`); buffers
are arrays. Each loop of the source is a loop. Proofs are about snapshots: the links, colours and caches of all nodes as maps
(`State`), the list as a map of neighbours (`Chain`), the areas as records (`Rec`), a memory as a sequence of bytes.

| files | about |
|---|---|
| `VmAreas`, `RbShape`, `RbGaps`, `RbBalance` | nodes; tree shapes under rotation, insertion and removal; cached gaps; colours and heights |
| `RbSteps`, `RbErasing`, `RbTree` | `rb_insert`, `rb_erase` and the walks that refresh caches |
| `Vma`, `GapSearch` | lookups and the search for a gap |
| `VmaSteps`, `Linking`, `VmaCuts`, `Unlinking` | an area enters list and tree, areas leave them |
| `Basics`, `HostMemory`, `AreaHosting` | sizes; frames of one area, and of all areas |
| `Regions`, `Contents`, `AreaViews` | the plain model of an address space: a set of records, and what their pages hold |
| `Adjusting`, `Merging`, `Munmapping`, `Mmap`, `Runs` | `vma_adjust` and `vma_split`, `vma_merge`, `syscall_munmap`, `mmap_region` and `do_brk`, runs of calls |
| `Words`, `PageEntries`, `PageTables`, `PageWalks`, `VirtualBytes`, `Paging` | words and their bytes, table entries, the four levels, walks, copies, `vm/paging.c` |
| `FreeList`, `Alloc` | the free list as a value, `malloc` and `free` |
| `UserStack`, `Versions` | the first stack, version tags |

Where the code and its comments part: `map_physical_page` says nothing of it, but makes every page writeable whatever the
protection asks for (`Paging.LeafRights`); an access of more than ten bytes is checked on its first ten only
(`Versions.CheckVersion`).

## Model

| member | source | states |
|---|---|---|
| Runs.Run | kernel/c/mmap.c:137-377 | over any run of `munmap`, `mmap_region` and `do_brk` with writes of the guest in between: list, tree, every cached gap and the highest address agree at the end, the areas are what replaying the run on a set of records gives, and each answer is the one that the records decide; if no call made one area of two, the page tables translate exactly the pages of areas, and what the guest reads is, page by page, what replaying the run on a plain memory gives |
| Runs.Call | kernel/c/mmap.c:137-377 | one call does to the areas what it does to the records, does to the contents of all their pages, of files or not, what it does to the plain memory, and answers as the records decide |
| Runs.Write | vm/vma.c:73-143 | a write of the guest reaches no page but its own, as no two pages of areas share a frame |
| Runs.ContentsAt | kernel/c/mmap.c:137-377 | in the plain memory a page of a new range, or of a file mapping that the call cuts or makes longer, comes to show the file where the areas now have it, or zero if they have no file there; every other page keeps its contents |
| Runs.StepFull | kernel/c/mmap.c:137-377 | unless a call makes one area of two, the plain memory has exactly the pages of areas |
| Runs.UntouchedKept | kernel/c/mmap.c:137-377 | a page that from some step on no call or write is about, and whose file mapping none cuts or makes longer, holds at the end what it held then |
| Runs.LastWrite | kernel/c/mmap.c:137-377 | the last write to such a page is what it holds |
| Runs.StepMeans | kernel/c/mmap.c:137-377 | on the records a call sets the kind of exactly the addresses of its range, or clears them, or changes nothing, and records stay disjoint and proper |
| Runs.OffsetsFit | kernel/c/vma.c:325-405 | over any run with offsets below 2^63, no page offset goes negative, and of areas in the lower half of the address space no sum that the merge tests compare reaches 2^64, so the unbounded numbers here are the code's words |
| Runs.AtFirst | kernel/c/vma.c:20-72 | the empty address space has the invariant of runs |
| Runs.ValidSearchable | kernel/c/mmap.c:17-101 | the invariant of runs is all that the gap search asks for |
| Runs.FreeIsUnused | kernel/c/mmap.c:17-101 | a start is free, as the gap search means it, if and only if no record has anything of the stretch |
| Runs.BridgeInARun | kernel/c/vma.c:298-323 | three ordinary calls from nothing reach the state in which pages lose their translation |
| Munmapping.SyscallMunmap | kernel/c/mmap.c:137-195 | refused exactly for an unaligned, empty or too high range; else the records are the old ones minus `[addr, addr + PAGE_ALIGN(length))`, no page of the range is translated, and told pages of survivors read what is told, through up to two splits |
| Munmapping.MunmapTold | kernel/c/mmap.c:137-195 | whatever is told of the pages before, afterwards they hold it, but for those of a file mapping cut in two, which show the file |
| Munmapping.MunmapSeen | kernel/c/mmap.c:137-195 | every surviving page reads the same if and only if it is no page of a file mapping cut in two that differed from the file; what the others read is the file |
| Munmapping.DirtyExists | vm/vma.c:117-133 | such a page of a private mapping exists |
| Munmapping.CutLow | kernel/c/mmap.c:164-177 | an area across the low end is split there, and no other |
| Munmapping.CutHigh | kernel/c/mmap.c:179-186 | likewise at the high end, after which the areas in between are just those inside the range |
| Munmapping.VmaListRemove | kernel/c/vma.c:201-223 | following the detached list unmaps the pages of each of its areas and no others |
| Regions.TrimPlaces | kernel/c/mmap.c:137-195 | cutting a range out of the records unmaps its addresses, and every other address keeps flags, protection, file and byte offset |
| Regions.InTrim | kernel/c/vma.c:407-444 | a record is left by the cut if and only if it is what remains of an old one at one side |
| Regions.RemapKinds | kernel/c/mmap.c:198-237 | cutting out and mapping anew gives the addresses of the range the new kind and leaves the kind of all others, in each way of merging |
| Regions.RemapPlaces | kernel/c/mmap.c:198-237 | an address outside the range keeps protection, flags, file and byte offset if and only if no area that reaches down to the end of the range, and is merged with it, has the address; else none of its old places is left |
| Regions.AllPlaces | kernel/c/mmap.c:198-237 | all addresses outside keep their places if and only if no area that can be merged reaches down to the end of the range, which a caller can see |
| Regions.ShiftExists | kernel/c/vma.c:387-402 | a page of a file whose place is lost, in numbers |
| Regions.RemapRange | kernel/c/mmap.c:198-237 | the range gets the protection, file and place asked for if and only if no area that can be merged reaches up to it, and one that reaches down has that protection and file: a merge gives the range the neighbour's |
| Regions.RemapProper | kernel/c/mmap.c:198-237 | the records stay disjoint, nonempty and aligned |
| Regions.RemapFiles | kernel/c/vma.c:325-331 | a merge joins only areas of one device, inode and flags, for every address of the range and beside it |
| Regions.BridgesIsBoth | kernel/c/vma.c:371-385 | two records become one if and only if, before the call, one that can be merged reaches the range from below and one from above, which a caller can see |
| Regions.BridgeExists | kernel/c/vma.c:298-323 | such a state, in numbers |
| Regions.MergedPages | kernel/c/vma.c:355-405 | the areas have after a merge the pages they had and those of the range, and no other |
| Contents.RemappedAt | kernel/c/mmap.c:198-237 | after a range has been mapped anew a page of the range, or of a file mapping that this has cut or made longer, shows the file at its new place, or zero; any other page what it did |
| Contents.TrimmedShows | kernel/c/mmap.c:137-195 | the same for a range that has been cleared |
| Contents.FilePlace | vm/vma.c:117-133 | the page of a file that a page shows is the one at the byte offset of its place |
| Mmap.MmapRegion | kernel/c/mmap.c:198-237 | fails, and changes nothing, exactly when the range is in use and cannot be unmapped; else the records are remapped, an area spans the range, all pages of areas, of files or not, hold what the plain memory tells, and the page tables translate all of them unless two areas became one, when exactly the pages of the absorbed one are missing; from an exact state each page of the range is translated and reads the file at `page_offset` plus its distance from the start of the area, or, without a file, 4096 zero bytes; where no area is near, the new one has just the range, protection, file, offset and flags asked for |
| Mmap.DoBrk | kernel/c/mmap.c:333-377 | the same for `do_brk`, with each of its early answers: new pages read as 4096 zero bytes unless they join a file mapping |
| Mmap.PlanBrkMeans | kernel/c/mmap.c:339-350 | the rounded length wraps exactly for the last requests below 2^64, and is otherwise the least multiple that fits |
| Mmap.MakeRoom | kernel/c/mmap.c:208-214 | the retry loop runs `syscall_munmap` at most once, and gives up exactly when the range is in use and refused |
| Mmap.MapRange | kernel/c/mmap.c:208-236 | the common part of both calls, tables and contents included |
| Mmap.MissingInexact | kernel/c/vma.c:298-323 | with those pages missing the page tables are not those of the areas |
| GapSearch.FindNextGap | kernel/c/mmap.c:17-101 | the highest free start in the window, or nothing exactly when there is none; the walk ends |
| GapSearch.WalkGaps | kernel/c/mmap.c:42-100 | the same for the walk with its jump back to the check, once the space above has been ruled out |
| Vma.VmaFind | common/vma.c:89-111 | the first area of the list whose end exceeds the address; the nodes looked at are the one path the order allows, at most 2 log2(n + 1) in a red-black tree of n areas |
| Vma.VmaFindLinks | kernel/c/vma.c:20-51 | fails exactly when an area overlaps; else gives the predecessor and an empty link that keeps the tree ordered, and the head of the list as parent when there is no predecessor |
| RbTree.RbInsert | kernel/c/rbtree.c:51-173 | from any tree with a black root, balanced or not, order and caches are kept and the root ends black; a red-black tree with a new red leaf ends red-black |
| RbTree.RbErase | kernel/c/rbtree.c:176-275 | exactly the node leaves the sequence, links and caches right; a node is returned exactly if a black node without children is cut off, which a caller can see; a red-black tree stays one if and only if the result is null, and else the one defect is a missing black node at the empty link of the returned node |
| RbTree.GapPropagate | kernel/c/vma.c:95-104 | stopping at the first cache that did not change leaves every cache above right |
| RbTree.FindSuccessor | kernel/c/rbtree.c:207-244 | the leftmost node of the right subtree is the successor in the sequence |
| RbTree.ComputeIsExpected | kernel/c/vma.c:74-90 | `vma_compute_subtree_gap` is the maximum of the own gap and the children's caches |
| RbTree.RotateRightAt | kernel/c/rbtree.c:120-135 | a rotation keeps the sequence and moves the two caches |
| RbTree.FlipStep | kernel/c/rbtree.c:72-92 | recolouring moves the red conflict two levels up |
| RbBalance.PathBound | kernel/c/rbtree.c:51-173 | a path down a red-black tree has at most 2 log2(n + 1) nodes |
| RbBalance.InsertDone | kernel/c/rbtree.c:62-66 | a tree that is red-black but for a red root is red-black once it is blackened |
| RbBalance.SpliceBalanced | kernel/c/rbtree.c:182-205 | removing a node with an empty link keeps the heights, or leaves one short link |
| RbBalance.PromoteBalanced | kernel/c/rbtree.c:206-271 | so does moving the successor into its place |
| RbBalance.ShortIsDefect | kernel/c/rbtree.c:176-275 | a tree with such a short link is not red-black, however heights are assigned |
| RbGaps.CacheIsWidest | kernel/c/vma.c:74-90 | locally right caches are the widest holes of whole subtrees |
| RbShape.InOrderIsOrder | kernel/c/rbtree.c:8-14 | walking the tree gives the sequence of the list |
| RbShape.RotateRightTree | kernel/c/rbtree.c:120-135 | a rotation keeps a tree with right parents in the same order |
| RbShape.LinkLeafTree | kernel/c/rbtree.c:8-14 | so does a leaf at an empty link, one element longer |
| RbShape.SpliceTree | kernel/c/rbtree.c:182-205 | so does cutting out a node with one child, one element shorter |
| RbShape.PromoteTree | kernel/c/rbtree.c:206-271 | so does replacing a node with two children by its successor |
| Linking.VmaLinkList | kernel/c/vma.c:53-72 | the list gains the area between its neighbours |
| Linking.VmaLinkRb | kernel/c/vma.c:127-147 | the tree gains it at the link, with caches right although it begins with gap 0 |
| Linking.LinkArea | kernel/c/vma.c:149-155 | list, tree and caches agree on one area more; red-black stays red-black |
| Linking.VmaGapUpdate | kernel/c/vma.c:123-125 | the one stale cache and those above it become right |
| Unlinking.DetachVmas | kernel/c/vma.c:158-177 | exactly the areas from the given one on that start below the end leave list, tree and highest address, and stay linked to each other |
| Unlinking.VmaUnlink | kernel/c/vma.c:192-199 | an area grown over leaves list and tree while the two overlap |
| Adjusting.VmaLink | kernel/c/vma.c:149-155 | the new area also gets its frames, and no other page changes |
| Adjusting.VmaInsert | kernel/c/vma.c:179-189 | the lookup cannot fail, and finds the place that the caller means |
| Adjusting.AdjustPlain | kernel/c/vma.c:225-323 | an area grows at one side, its caches and the one behind it with it; its told pages read the same |
| Adjusting.AdjustRemove | kernel/c/vma.c:225-323 | it grows over its successor, whose record goes; exactly the successor's pages end up without translation |
| Adjusting.AdjustInsert | kernel/c/vma.c:225-323 | it gives up one side to a new area |
| Adjusting.VmaSplit | kernel/c/vma.c:407-444 | one record becomes two at the address, with byte offsets that agree; both move to new frames and all told pages read the same |
| Merging.VmaMerge | kernel/c/vma.c:355-405 | returns null and changes nothing exactly when neither neighbour can be merged; else the records are those with the grown neighbour, in the one- and two-sided cases, and the areas hold what is told of them |
| Merging.CanMergeIsKind | kernel/c/vma.c:325-331 | the test of flags and file is equality of kinds |
| HostMemory.Host.KernelMapVma | vm/vma.c:73-143 | an area whose range has changed gets fresh frames; an anonymous page in the old and the new range reads the same, the other pages zero, a file's pages the file; nothing else changes but the frames moved away; just the flags 0x20 and, on a move, 0x40 are set (`HostBitsAre`) |
| HostMemory.Host.ZeroPage | vm/vm.c:64-65 | a frame never written to reads as 4096 zero bytes |
| HostMemory.Host.KernelUnmapVma | vm/vma.c:145-156 | exactly the pages of the old range lose their translation |
| HostMemory.Host.MoveKept | vm/vma.c:100-115 | in every combination of growing and shrinking the move copies just the pages of the intersection, to their place, within the new frames |
| HostMemory.Host.RemapRegion | vm/vma.c:53-71 | moved frames read as before at the target and leave a hole |
| HostMemory.Host.MapPages | vm/paging.c:263-286 | a stretch of pages is mapped to new frames in a row |
| AreaHosting.SettleIn | vm/vma.c:73-143 | of many areas, one gets new frames and all others read as before |
| AreaHosting.UnmapOne | vm/vma.c:145-156 | of many areas, one is unmapped and all others read as before |
| Paging.PhysicalMemory.Session | vm/paging.c:223-286 | over any run of mapping, unmapping and writing the tables translate what replaying the run on a plain map gives; each request to map gets one frame for each page: those it names, or new ones, ascending and in a row if it says so, which hold no table and which no other request gets |
| Paging.LastWins | vm/paging.c:223-286 | in the plain map a page has what the last request about it decided, and without one what it had |
| Paging.PhysicalMemory.BuildPageTables | vm/paging.c:186-195 | a zero memory becomes tables that translate nothing, with all 512 top entries equal |
| Paging.PhysicalMemory.MapPhysicalPages | vm/paging.c:263-286 | pages in a row are mapped in the plain map, to given frames, to new ones in a row, or to new ones one by one; new frames are distinct, zero and no tables; no byte of any other data frame changes |
| Paging.PhysicalMemory.MapPhysicalPage | vm/paging.c:223-240 | one page, unless it has an entry that is not to be overwritten; missing tables come from the counter |
| Paging.PhysicalMemory.UnmapPhysicalPage | vm/paging.c:242-261 | one page leaves the plain map and all others stay |
| Paging.PhysicalMemory.GetPhysAddr | vm/paging.c:114-140 | the walk finds what the plain map says, and fails exactly where it says nothing |
| Paging.PhysicalMemory.AllocatePages | vm/paging.c:166-184 | new frames; -1 exactly for none |
| Paging.PhysicalMemory.MapPageEntry | vm/paging.c:206-217 | one entry is written, and a table made for it if asked for and missing |
| Paging.PhysicalMemory.TableFor | vm/paging.c:223-258 | the way down is completed by at most two tables and no translation or data changes |
| Paging.PhysicalMemory.WriteVirtualAddr | vm/paging.c:67-86 | the bytes up to the first page without translation are written, page by page as if byte by byte, and no translation changes |
| Paging.PhysicalMemory.ReadVirtualAddr | vm/paging.c:88-108 | likewise read |
| Paging.PhysicalMemory.WriteThenRead | vm/paging.c:67-108 | what is written is read back, for any start, length and scattering of frames, if no two pages share a frame |
| Paging.PhysicalMemory.ProcessorAgrees | vm/paging.c:186-240 | a processor's walk (section 4.5 of volume 3A of the Intel SDM) gives every version tag the same frame, and the rights of the last entry alone |
| PageWalks.HardwareSeesMap | vm/paging.c:186-240 | the same of a memory as a value |
| PageWalks.InfoSpellsPage | vm/paging.c:35-45 | the three indices are the digits of the page number, whatever the tag |
| PageWalks.WalkLevels | vm/paging.c:114-140 | each level's entry is present exactly when the level below exists, and leads to it |
| PageTables.SetLeaf | vm/paging.c:206-221 | writing a lowest entry changes the plain map at one page and keeps all tables apart |
| PageTables.AddDir | vm/paging.c:206-217 | a new table at the third level translates nothing yet |
| PageTables.AddTab | vm/paging.c:206-217 | nor does one at the lowest |
| PageTables.DataWritten | vm/paging.c:67-86 | writing frames that are no tables changes no translation |
| PageEntries.MadeEntry | vm/paging.c:197-217 | an entry gives back the frame and flags it was made of |
| PageEntries.TableEntryIs | vm/paging.c:186-217 | the entries above the lowest level are one word for each frame, and setting their flags again changes nothing |
| Words.LittleEndian | vm/paging.c:206-221 | a word in memory is the sum of its bytes, the lowest first |
| Paging.MapEachAt | vm/paging.c:263-286 | mapping in turn means: each page of the stretch has its frame, unless it had one that is kept, and no other page is touched |
| Paging.LeafRights | vm/paging.c:223-240 | a mapped page is open to the user and to execution as its flags say, and writeable always |
| Paging.RowSeenByHost | vm/paging.c:263-286 | seen as pages and frames, the page tables change as `Host.MapPages` says |
| VirtualBytes.RoundTrip | vm/paging.c:67-108 | what is written is read back if and only if each byte is also the last one for its place |
| VirtualBytes.RoundTripApart | vm/paging.c:67-108 | as it is when frames are apart |
| VirtualBytes.PokeAt | vm/paging.c:67-86 | a byte of memory is what was written there last, or as it was |
| Alloc.Heap.Malloc | example-program/alloc.c:34-71 | the first block behind `freep` that is large enough, going around, gives its tail or goes; when there is none one region is asked for, in which the second lap succeeds; null exactly when there is none to be had; the block was nobody's and is live now; both laps end. The count of units may have wrapped to anything but 0; `freep` is left at the block before the one taken from |
| Alloc.Heap.MallocTwice | example-program/alloc.c:34-71 | of two requests the second begins its search at the block before the one that the first took from |
| Alloc.Heap.Free | example-program/alloc.c:73-100 | the search ends within one lap, and the list is the old one with the block joined to the neighbours it touches, one cycle in each of the four cases |
| Alloc.Heap.FindPlace | example-program/alloc.c:82-85 | it stops at the block below, or at the last one |
| Alloc.Heap.Release | example-program/alloc.c:73-100 | a live block that is freed is live no more, and every unit keeps exactly one owner; `freep` is the last block below it, or the last of all if there is none below |
| Alloc.Heap.Balance | example-program/alloc.c:34-115 | at any time the sizes of free and live blocks add up to all units obtained |
| Alloc.Heap.Morecore | example-program/alloc.c:102-115 | a region becomes free units, and a block is large enough then |
| Alloc.UnitsHold | example-program/alloc.c:41 | units of 16 bytes hold the bytes and a header if and only if the 32-bit count does not wrap, and one unit less would not |
| Alloc.RegionEnough | example-program/alloc.c:105-107 | a region has the units needed or 1024, whichever is more |
| Alloc.NoUnits | example-program/alloc.c:41 | the count wraps to 0 exactly for sixteen requests in every 64 gigabytes |
| Alloc.NothingTaken | example-program/alloc.c:52-61 | these break the heap: the block of size 0 leaves the list, or the header of a live block is overwritten |
| Alloc.RingPut | example-program/alloc.c:87-98 | the two assignments leave one cycle, in each of the four cases |
| FreeList.ReturnedApart | example-program/alloc.c:87-98 | no two free blocks touch afterwards |
| FreeList.ReturnedCovers | example-program/alloc.c:87-98 | exactly the units given back become free |
| FreeList.TakenCovers | example-program/alloc.c:52-59 | exactly the units taken stop being free |
| UserStack.LoadUserLand | kernel/c/kernel.c:126-232 | what is written decodes, by section 3.4.1 of the System V AMD64 ABI, to the arguments, the environment and the eight auxiliary entries, on a 16-byte boundary; 16 bytes between block and strings are left alone, and so is all else; the auxiliary vector has the eight keys 3 to 9 and 25, once each, with the values of the file's header, 56, 4096, 0 and the address of the random bytes |
| UserStack.StackDecodes | kernel/c/kernel.c:203-232 | a block of words below two images of strings decodes to the strings |
| UserStack.DecodeArgs | kernel/c/kernel.c:203-212 | the count is the word at the stack pointer, and the words behind it are the addresses of the arguments |
| UserStack.DecodeEnvs | kernel/c/kernel.c:214-222 | behind them is a zero, and then the addresses of the environment |
| UserStack.DecodeAux | kernel/c/kernel.c:224-232 | behind them is a zero, and then the pairs of the auxiliary vector |
| UserStack.PushStrings | kernel/c/kernel.c:149-165 | each string gets its place, the last one on top |
| UserStack.NewAuxEntry | kernel/c/kernel.c:47-54 | an entry is added while there is room |
| Versions.CheckVersion | kernel/c/version.c:34-75 | for a pointer of tag `t` and address `a`: an access is let through exactly when those of its first ten bytes that it has, all ten if its width is not known, are of version `t`, and none of them lies on a next page that is present |
| Versions.CheckAccess | kernel/c/version.c:59-75 | within a page, exactly when one of its bytes has another version |
| Versions.Retag | kernel/c/version.c:18-75 | a pointer with the tag of before is refused exactly when the new version differs in the last eight bits |
| Versions.SetVersion | kernel/c/version.c:18-26 | exactly the bytes of the range get the version, and the pointer returned is the version times 2^40 plus the address |
| Versions.TagTrip | libc/version.c:11-21 | a tag is read back if and only if no bit above it is set, and clearing it forgets it |

## Left out

- syscall_brk: it moves the end of an area but refreshes neither the cache of the next one nor the highest address (`kernel/c/syscall.c:133-134`), so it does not keep the invariant of runs.
- grow_stack: it does not look at the area below (`kernel/c/stack.c:51-61`); `load_user_land` is modelled without the call.
- syscall_mmap and get_unmapped_area: a failed hint and an unchecked error result; their search and their mapping are modelled.
- vma_heap: the allocator of area records; a new record is a fresh object, and never runs out. `kernel_dup` and `kernel_close` do nothing.
- The cases of `vma_adjust` in which an area swallows two neighbours, or the border to its successor moves up or down: no caller here reaches them.
- Mmap.MmapRegion: after a merge on both sides the page tables agree with the areas exactly if there was none; the code unmaps the absorbed area after it has mapped the grown one (`kernel/c/vma.c:298-323`). What the absorbed pages held is not told of. The code mixes page counts with byte offsets (`kernel/c/vma.c:335-352`), and so does the model (`Regions.RemapPlaces`).
- Merging.VmaMerge: page offsets are unbounded integers; calls that give offsets of 2^63 or more are not covered by the proof that none wraps (`Runs.OffsetsFit`).
- RbTree.RbErase: callers drop the result, so over runs balance is claimed for insertion only; order, links, caches and the black root are kept over erasures too.
- HostMemory.Host.MapPages: pages are unbounded numbers, while the tables know pages by 27 bits below the version tag. Frames are never out; in `Paging` the memory is taken to be large enough for the frames and three for each page. The rights that `vma_prot_to_pg` asks for are modelled in `Paging` alone.
- Paging.PhysicalMemory.MapPhysicalPages: flags of a page must have no address bits; the address of a page is reduced to its page number, as the walk does.
- Munmapping.MunmapSeen: files do not change, so mappings of files are private ones; a write to a shared mapping, which would reach the file and every other mapping of it, is not modelled.
- Runs.Run: that an operation needs so many steps is not stated, since balance is not kept by erasures; after two areas became one nothing is said of contents; a write that has no translation faults and writes nothing.
- Functions of the source that share a loop or a walk share a method: `Mmap.MapRange` and `Mmap.MakeRoom`, `Paging.PhysicalMemory.TableFor`, `UserStack.PushStrings`.
- `memcpy`, `mremap`, `mmap` of a file and `sbrk`: the first as a loop over bytes or words, the next two by what they do to frames, the last as an argument.
- read_virtual_cstr, load_address_space, realloc, vma_find_phys: they do not do what they are for across pages, past the file size, for units against bytes, and below an area.
- Alloc.Heap.Malloc: requests whose count of units wraps to 0 (`Alloc.NoUnits`), which break the heap; what the program writes into its blocks; regions that touch the static header.
- Versions.CheckVersion: decoding an instruction is left to its operand width; user memory has shadow bytes for the ten bytes looked at.
- Invalidating the processor's cache of translations, page faults, KVM, host calls and `printf`.
