# Weenix in Dafny

A model of the stateful parts of a Weenix kernel and its tools, with proofs over every input,
every run or every reachable state. `dafny verify dfyconfig.toml` checks all of it.

| module | component | main results |
|---|---|---|
| `VnodeCache` | vnode cache: `vget`, `vref`, `vput`, destruction | safety of every interleaving of any number of threads, and no lost wake-up |
| `BTree`, `BTreeMemory`, `NodeArrays` | B-tree page index | search, insert and delete are map operations; which 64-bit keys survive being moved as `int`; the in-place code on node memory and node arrays refines the tree value |
| `PageCache` | memory objects | frame list and index hold the same frames in every state; which frames are left locked |
| `Words`, `Buddy`, `PageAllocator` | buddy page allocator | available nodes tile the free pages; allocation fails exactly when no block fits; the bitmap scan is exact |
| `EdRegex` | regular expressions of `ed` | the compiled matcher decides the denotation of the pattern and records its bracketed parts; every pattern whose code fits compiles |
| `PageTables` | four-level page tables (Intel SDM volume 3A, section 4.5) | mapping changes one translation and takes exactly the tables that are missing; cloning keeps them all and costs exactly its tables; destruction frees each table once |
| `FreeChain` | free list of `fsmaker` | the chained list is a stack |
| `S5Dirs` | S5 directories | names, link counts, lengths and the directory tree in every run; each error code exactly in its case; the recount decides whether the link counts are right |
| `S5Files` | S5 reads and writes | a file is a byte sequence; a write is a splice, and succeeds exactly when the blocks it needs are free |
| `S5Blocks` | S5 block allocation and mapping | all references to blocks are pairwise distinct in every run; which blocks are free after each call |
| `VfsRefs` | system calls of the VFS, path resolution, descriptors | reference counts equal the referrers between calls, on every path through every call |
| `SlabAllocator` | slab allocator | layout with red zones, acyclic free chains, no object handed out twice, every invalid free and broken red zone caught, least waste |
| `ElfStack` | initial user stack (a variant of section 3.4.1 of the System V AMD64 ABI, draft 0.99.6) | when the pieces tile the computed size, and reading the stack recovers the arguments |

How the source is represented:

- Concurrent code is a state machine whose steps are the indivisible steps of a thread. Sequential
  code that updates memory is a class, or a method on arrays, proved against functions on values.
- What comes from outside (whether memory or disk space is left, what a device, a file system
  operation or another component answers) is a parameter, so every statement holds for all answers.
- Ghost state records what the code cannot see: who holds a reference, which allocation is live,
  which nodes form a chain or a tree.
- Memory is addressed by number. Addresses may be reused after being freed.

Where the code and its own comments disagree, the model follows the code:

- The B-tree stores 64-bit keys but moves them as `int` (`kernel/util/btree.c:39`,
  `kernel/util/btree.c:61`, `kernel/util/btree.c:69`), so a key outside the range of `int` changes when a
  split or a rotation moves it, and the order that is asserted (`kernel/util/btree.c:506`) breaks.
  `BTree.NarrowKeeps` says exactly which keys survive, `BTree.InsertIsUpdate` that the tree stays an
  index exactly for those, and `BTreeMemory.LosesKey` is a run of inserts that loses any other key.
  A deletion that meets such a key may panic inside: `BTreeMemory.NodeMemory.Delete` says exactly when,
  and `BTreeMemory.PanicsOnDelete` is a run.
- Renaming a file onto another name of the same file returns an error (`kernel/fs/s5fs/s5fs.c:583`);
  the comment asks for success. `S5Dirs.FileSystem.Rename` says exactly when, and
  `S5Dirs.RenameOntoItself` is such a call.
- Removing a directory clears its size but not the length its vnode keeps
  (`kernel/fs/s5fs/s5fs.c:723`), so the assertion that both are equal
  (`kernel/fs/s5fs/s5fs_subr.c:578`) fails in a removed directory that is still held, and only there:
  `S5Dirs.FileSystem.Lookup`, `S5Dirs.LookInRemoved`.
- `do_open` makes a file readable only when no flag at all is given, or for reading and writing
  (`kernel/fs/open.c:98`), so a file opened for reading with `O_CREAT` is not readable:
  `VfsRefs.CreatedNotReadable`.
- `do_getdent` reports an error of `readdir` as an entry (`kernel/fs/vfs_syscall.c:623`) and adds it to
  the file position, as reads and writes do: `VfsRefs.ErrorIsEntry`.
- `do_rmdir` recognises `.` and `..` only when no slash follows (`kernel/fs/vfs_syscall.c:323-331`):
  `VfsRefs.DotSlash`.
- The unsigned bound of `page_alloc_n_bounded` wraps for requests that do not fit below the maximal
  address; `PageAllocator.BoundIsMeant` says exactly when it means what it should, and
  `PageAllocator.BoundWraps` is a request for which it does not. The page count of `page_add_range`
  wraps in the same way for a range without a page boundary: `PageAllocator.RangeIsMeant`,
  `PageAllocator.RangeWraps`.
- Truncation leaves pages in the cache that were cached while sparse; `S5Files.File.Truncate` says
  exactly when the file still reads as zero behind its end, and `S5Files.StalePage` is a run of writes,
  reads and a truncation after which it does not.
- A read that cannot get a page releases a frame it never got (`kernel/fs/s5fs/s5fs_subr.c:256-258`).
  The model stops with the error at that point.
- When no page can be had for a frame, `mobj_default_get_pframe` returns without unlocking it
  (`kernel/mm/mobj.c:188-192`), although its comment asks for a clean-up;
  `PageCache.MemoryObject.GetFrame` says exactly when a frame is left locked, and
  `PageCache.LeftLocked` is such a call.
- A page that a 1GB page already maps is recognised by the flags meant for tables, not for pages
  (`kernel/mm/pagetable.c:311`); `PageTables.PageMap.MapPage` states the flags of the result in both
  cases, and `PageTables.GiantFlags` is a call after which they are not those asked for.
- A failing clone of a page table returns the tables that are linked into the new root, not those of the
  copy that failed (`kernel/mm/pagetable.c:496-499`, `kernel/mm/pagetable.c:533-536`);
  `PageTables.NothingLost` says exactly when nothing is lost, and `PageTables.LosesOne` is a run that
  loses a page.
- The space for header tables on a new stack is counted once per `AT_PHDR` entry, but all of them are
  copied to the same place (`kernel/api/elf.c:424`, `kernel/api/elf.c:546-552`): `ElfStack.Tiles`,
  `ElfStack.TwoTables`.
- The last auxiliary entry on a new stack gets only its type; the eight bytes of its value stay as
  they were in the buffer (`kernel/api/elf.c:556`).

## Model

| member | source | states |
|---|---|---|
| VnodeCache.EveryRunIsSafe | kernel/fs/vnode.c:93-250 | In every state of every interleaving: one vnode per inode on the list, a count that equals the references that exist, no vnode handed out after its count reached 0 or before LOADED, no access to freed memory, no failing assertion, and a log in which `read_vnode` of an inode never begins before an earlier `delete_vnode` of it has ended and its vnode is off the list |
| VnodeCache.StepKeepsInv | kernel/fs/vnode.c:120-178 | Every single step of every thread (search, compare-and-swap, insert, load, put, destroy) keeps the invariant |
| VnodeCache.RunHasInv | kernel/fs/vnode.c:120-178 | Every state of every run has the invariant, by induction over the run |
| VnodeCache.InvIsSafe | kernel/fs/vnode.c:226-250 | The invariant implies the safety statement, thread by thread and reference by reference |
| VnodeCache.LifeCycleFromPhases | kernel/fs/vnode.c:226-250 | If no inode ever left the automaton insert, read, loaded, zero, delete, remove, then consecutive events of an inode in the log follow that order with the same vnode |
| VnodeCache.NoRunGetsStuck | kernel/fs/vnode.c:93-108 | No interleaving loses a wake-up or deadlocks inside the cache: a busy thread can step, or waits for a thread that can, or for a vnode mutex that a caller holds |
| VnodeCache.RunWakes | kernel/fs/vnode.c:93-108 | In every run a thread asleep on a loading vnode is still owed a broadcast |
| BTree.SearchIsLookup | kernel/util/btree.c:393-407 | From every index, search is lookup in the key-to-data map |
| BTree.InsertIsUpdate | kernel/util/btree.c:409-431 | From every index, inserting an absent 64-bit key is map update, and the result is an index again if and only if the key survives being moved as `int` |
| BTree.NarrowKeeps | kernel/util/btree.c:39-81 | Moving a key as `int` keeps it if and only if it is below 2^31 or at least 2^64 - 2^31, and moving it again changes nothing more |
| BTree.DeleteIsRemoval | kernel/util/btree.c:433-452 | From every index, deletion is map removal, and the result is an index again |
| BTree.SplitKeeps | kernel/util/btree.c:123-156 | Splitting a full child keeps the in-order entries, the occupancy bounds and equal leaf depth |
| BTree.InsertNonfullInserts | kernel/util/btree.c:159-195 | Insertion below a node that is not full adds exactly the new entry in order, keeps balance and never empties the node |
| BTree.TakePrevKeeps | kernel/util/btree.c:284-299 | Borrowing from the left sibling keeps entries and balance and gives the child one key more |
| BTree.TakeNextKeeps | kernel/util/btree.c:301-316 | Borrowing from the right sibling keeps entries and balance and gives the child one key more |
| BTree.MergeKeeps | kernel/util/btree.c:334-356 | Merging two children with one key each keeps entries and balance; the parent loses one key |
| BTree.FillKeeps | kernel/util/btree.c:318-332 | Filling a child keeps entries and balance and leaves a child that can lose a key |
| BTree.FillBalanced | kernel/util/btree.c:318-332 | Whatever happens to the keys, filling a child keeps balance and leaves a child that can lose a key |
| BTree.DeleteSeparatorDeletes | kernel/util/btree.c:198-224 | Deleting an inner key through predecessor, successor or merge removes exactly that entry |
| BTree.DeleteFromDeletes | kernel/util/btree.c:250-282 | The mutually recursive deletion removes exactly the key, keeps order and balance, and terminates on height; a nested call never empties its subtree root |
| BTree.DeleteFromBalanced | kernel/util/btree.c:250-282 | From every balanced tree, whatever its keys and their order: deletion keeps balance and takes at most one key from the root |
| BTreeMemory.NodeMemory.Create | kernel/util/btree.c:378-391 | A fresh empty leaf; nothing else changes |
| BTreeMemory.NodeMemory.Search | kernel/util/btree.c:393-407 | The walk through node memory returns what search on the tree value returns |
| BTreeMemory.NodeMemory.SplitChild | kernel/util/btree.c:123-156 | On nodes in memory, for all keys: exactly the split of the tree value, one fresh node, no other node touched |
| BTreeMemory.NodeMemory.InsertNonfull | kernel/util/btree.c:159-195 | On nodes in memory: exactly the insertion on the tree value, no other node touched |
| BTreeMemory.NodeMemory.Insert | kernel/util/btree.c:409-431 | For all keys: the new root holds exactly the inserted tree; the nodes used before and after account for all changes |
| BTreeMemory.LosesKey | kernel/util/btree.c:409-431 | For every key that does not fit `int`: a run of four inserts after which the key is no longer found |
| BTreeMemory.NodeMemory.TakePrev | kernel/util/btree.c:284-299 | On nodes in memory: exactly the rotation on the tree value |
| BTreeMemory.NodeMemory.TakeNext | kernel/util/btree.c:301-316 | On nodes in memory: exactly the rotation on the tree value |
| BTreeMemory.NodeMemory.MergeChildren | kernel/util/btree.c:334-356 | On nodes in memory: exactly the merge on the tree value, and the right sibling is freed |
| BTreeMemory.NodeMemory.FillNode | kernel/util/btree.c:318-332 | On nodes in memory: exactly the filling on the tree value |
| BTreeMemory.NodeMemory.Predecessor | kernel/util/btree.c:226-234 | The last entry of the left subtree |
| BTreeMemory.NodeMemory.Successor | kernel/util/btree.c:236-244 | The first entry of the right subtree |
| BTreeMemory.NodeMemory.DeleteInternal | kernel/util/btree.c:198-224 | On nodes in memory, for all keys: exactly the deletion of a separator on the tree value; panics exactly if the nested deletion does |
| BTreeMemory.NodeMemory.DeleteHelper | kernel/util/btree.c:250-282 | On nodes in memory, for all keys: exactly the deletion on the tree value, unless a nested deletion panics |
| BTreeMemory.NodeMemory.DeleteInChild | kernel/util/btree.c:198-224 | For all keys: panics exactly if the narrowed key is not found in the child or a deletion inside panics; otherwise the child keeps a key, so its slot keeps its pointer |
| BTreeMemory.NodeMemory.Delete | kernel/util/btree.c:433-452 | From every balanced tree, for all keys: panics exactly if the search does not find the key, or a nested one does not find its narrowed key; otherwise the root pointer leads to exactly the deleted tree, and dropped nodes are freed |
| BTreeMemory.OrderedCompletes | kernel/util/btree.c:198-282 | From an index, whose keys fit `int`, no nested deletion panics |
| BTreeMemory.NestedFinds | kernel/util/btree.c:198-224 | In a sorted tree with any keys: the nested deletion finds the narrowed predecessor or successor if and only if that is a key of the child, and the narrowed separator after a merge if and only if it is not below the first key of the left child, or is a key of that child's first child |
| BTreeMemory.PanicsOnDelete | kernel/util/btree.c:433-452 | For every key that does not fit `int`: five inserts, after which deleting another key, which fits, panics |
| NodeArrays.Node.PopKey | kernel/util/btree.c:39-59 | In the key and data arrays: the entry comes out, its key narrowed to `int`, and later ones move down |
| NodeArrays.Node.AppendKey | kernel/util/btree.c:61-67 | In the arrays: the entry is added behind, its key narrowed to `int` |
| NodeArrays.Node.InsertKey | kernel/util/btree.c:69-81 | In the arrays: the entry is spliced in at its index, its key narrowed to `int` |
| NodeArrays.Node.PopChild | kernel/util/btree.c:83-100 | In the child array: the pointer comes out and later ones move down |
| NodeArrays.Node.AppendChild | kernel/util/btree.c:102-108 | In the child array: the pointer is added behind and the node is no leaf |
| NodeArrays.Node.InsertChild | kernel/util/btree.c:110-121 | In the child array: the pointer is spliced in at its index and the node is no leaf |
| NodeArrays.Node.InsertInLeaf | kernel/util/btree.c:163-175 | The shifting loop of a leaf puts the entry behind the last smaller key |
| NodeArrays.Split | kernel/util/btree.c:123-156 | The array loops of a split, with increasing pop index, compute exactly the cells of a split |
| NodeArrays.TakePrev | kernel/util/btree.c:284-299 | The array moves compute exactly the cells of the rotation from the left |
| NodeArrays.TakeNext | kernel/util/btree.c:301-316 | The array moves compute exactly the cells of the rotation from the right |
| NodeArrays.MergeInto | kernel/util/btree.c:334-356 | The array loops compute exactly the cells of the merge |
| PageCache.PageIndex.Search | kernel/util/btree.c:393-407 | A root pointer as a map: lookup, 0 for an absent key |
| PageCache.PageIndex.Insert | kernel/util/btree.c:409-431 | A root pointer as a map: update for all keys; no node is leaked; an index is left if and only if the key fits `int` |
| PageCache.PageIndex.Delete | kernel/util/btree.c:433-452 | A root pointer as a map: removal; no node is leaked; panics exactly on an absent key |
| PageCache.MemoryObject.FindFrame | kernel/mm/mobj.c:94-110 | Finds the frame of a page exactly when the frame list has one, and locks exactly that frame |
| PageCache.MemoryObject.Release | kernel/mm/pframe.c:53-59 | Exactly that frame is unlocked |
| PageCache.MemoryObject.CreateFrame | kernel/mm/mobj.c:130-145 | For all page numbers: adds a locked frame to list and index; both keep holding the same frames under the same distinct page numbers; the index stays sound if and only if the number fits `int` |
| PageCache.MemoryObject.GetFrame | kernel/mm/mobj.c:168-209 | Each error exactly in its case; success gives the frame of that page, locked and with memory, dirty when for writing; at most one frame is added on any outcome; on a failure the frame is left locked if and only if it is the page that could not be had; the index stays sound unless a frame is added for a number that does not fit `int` |
| PageCache.LeftLocked | kernel/mm/mobj.c:184-192 | A call that fails for want of a page and leaves the frame locked, so the page cannot be asked for again |
| PageCache.Indexed | kernel/mm/mobj.c:94-110 | In every valid state the index finds the one frame of a page, and none if and only if there is none |
| PageCache.MemoryObject.FreeFrame | kernel/mm/mobj.c:266-292 | A frame whose flush fails stays, locked; otherwise it leaves list and index together and is unlocked |
| PageCache.MemoryObject.DeleteFrame | kernel/mm/mobj.c:294-310 | Exactly the frame of that page leaves list and index |
| PageCache.MemoryObject.Destroy | kernel/mm/mobj.c:315-339 | Exactly the frames whose flush fails stay, and stay locked; so the index is empty afterwards, as asserted, if and only if every flush succeeds |
| Buddy.SetNode | kernel/mm/page.c:397-411 | Making a node available none of whose pages is free frees exactly its pages |
| Buddy.ClearNode | kernel/mm/page.c:505-508 | Clearing an available node takes away exactly its pages |
| Buddy.JoinNodes | kernel/mm/page.c:413-429 | Coalescing two buddies keeps the free pages and moves the only possible pair of siblings one row up |
| Buddy.HalveNode | kernel/mm/page.c:486-503 | Splitting a node keeps the free pages and leaves only its own pair of siblings |
| Buddy.BlockIsCovered | kernel/mm/page.c:413-429 | With no two available siblings, every aligned block that is free throughout lies under one available node |
| Buddy.WeightIsFreePages | kernel/mm/page.c:397-430 | The sum of count times 2^order over all orders is the number of free pages |
| PageAllocator.NoFullShift | kernel/mm/page.c:340-395 | The mask of the scan is never built by a shift by 64 |
| PageAllocator.FirstInRow | kernel/mm/page.c:340-395 | The first set bit found from a cleared leftmost node on lies in the same row and is its leftmost node |
| PageAllocator.Allocator.NextAvailable | kernel/mm/page.c:345-388 | The word-level scan stops inside the row, at the first set bit after the cleared one |
| PageAllocator.Allocator.UpdateAfterRemoval | kernel/mm/page.c:340-395 | The cached index becomes exactly the leftmost available node of the row, or the row end, and no other row is touched |
| PageAllocator.Allocator.MarkAvailable | kernel/mm/page.c:397-430 | Exactly the pages of that node become free, coalesced until no two siblings are available; counts and cached indices stay exact |
| PageAllocator.Allocator.MarkRange | kernel/mm/page.c:432-452 | Cutting a range into aligned nodes frees exactly its pages, for every range |
| PageAllocator.Allocator.AddRange | kernel/mm/page.c:454-472 | Exactly the whole pages of the byte range become free, never page 0; live allocations stay disjoint |
| PageAllocator.RangeIsMeant | kernel/mm/page.c:466-468 | The unsigned page count is right if and only if the range reaches from one page boundary to another; otherwise it is 2^52 - 1 |
| PageAllocator.RangeWraps | kernel/mm/page.c:466-468 | The range from 1 to 2 counts as 2^52 - 1 pages |
| PageAllocator.Allocator.SplitDown | kernel/mm/page.c:486-503 | The splitting loop keeps the free pages and ends at the leftmost node of the wanted order |
| PageAllocator.Allocator.AllocAt | kernel/mm/page.c:483-544 | Takes exactly the pages asked for from the first part of a node and gives the rest back |
| PageAllocator.Allocator.Alloc | kernel/mm/page.c:553-597 | Fails if and only if no aligned block of the least fitting order that is free throughout starts below the bound; otherwise hands out pages that were free and disjoint from all live allocations, and that end below the page of the maximal address unless the bound wraps |
| PageAllocator.Allocator.AllocAnywhere | kernel/mm/page.c:546-549 | Fails if and only if no naturally aligned, entirely free block of 2^ceil(log2 n) pages exists |
| PageAllocator.Allocator.FreePages | kernel/mm/page.c:599-611 | Exactly the pages of a live allocation become free again and the counter grows by their number |
| PageAllocator.Allocator.MarkReserved | kernel/mm/page.c:613-656 | For every page: it and no other stops being free, from whatever node covers it; also for the page behind a full tree, whose bit is the spare one |
| PageAllocator.Allocator.Ancestor | kernel/mm/page.c:625-634 | The walk up the tree finds the one available node over the page, exactly when the page is free |
| PageAllocator.BoundIsMeant | kernel/mm/page.c:565-566 | The unsigned bound admits exactly the starts from which the pages end at or before the page of the maximal address, if and only if the request is at most one page larger than what lies below |
| PageAllocator.BoundWraps | kernel/mm/page.c:565-566 | Two pages below the address 0xfff: the bound wraps and admits every start |
| PageAllocator.CounterIsExact | kernel/mm/page.c:397-472 | In every valid state the free counter is the number of free pages |
| PageAllocator.TooFewPages | kernel/mm/page.c:556-559 | Refusing a request larger than the counter never refuses one that could be met |
| PageAllocator.NothingFits | kernel/mm/page.c:573-596 | If no row from the wanted order up has a node below the bound, no free block starts there |
| EdRegex.Cclass | user/bin/ed.c:1639-1656 | Membership in the stored class, never for the end of the line |
| EdRegex.Matcher.AtomFits | user/bin/ed.c:1546-1587 | The comparison for one operator says whether the atom fits the character |
| EdRegex.Matcher.SkipRun | user/bin/ed.c:1597-1616 | The greedy loops stop behind the longest run the atom fits |
| EdRegex.Matcher.Advance | user/bin/ed.c:1538-1637 | Running the byte code from a position succeeds if and only if the pattern denotes a word that starts there; `loc2` ends one, each item takes its own part of it, and each bracket is recorded where it lies in that match, whatever was recorded while backtracking |
| EdRegex.Matcher.Backtrack | user/bin/ed.c:1618-1631 | Giving back characters one by one finds a match of the starred rest exactly when there is one, and leaves the brackets of that match recorded |
| EdRegex.BracketedPart | user/bin/ed.c:1589-1595 | The recorded part of a bracket lies within the match and is a word of what stands between the brackets |
| EdRegex.NumberedDistinct | user/bin/ed.c:1386-1411 | The numbers `compile` gives keep brackets apart, so no record is overwritten by another bracket |
| EdRegex.Editor.Compile | user/bin/ed.c:1341-1474 | Succeeds exactly on patterns that parse, where a star at the start is refused even as the delimiter, and whose code fits the buffer; leaves the code of exactly that pattern |
| EdRegex.Editor.CompileItems | user/bin/ed.c:1371-1470 | The compile loop writes the encoding of the parsed items, star bits included |
| EdRegex.Editor.EmitClass | user/bin/ed.c:1440-1463 | A bracketed class is copied with its length, or refused when unterminated or too long |
| EdRegex.Editor.AddStar | user/bin/ed.c:1426-1430 | A star turns the last operator into its repeated form and nothing else |
| EdRegex.Editor.Execute | user/bin/ed.c:1476-1536 | Non-global: found if and only if some part of the line matches (at the start for `^`); `loc1` is the leftmost start and `loc1..loc2` a match, with its brackets recorded, on the fast path as on the regular loop |
| EdRegex.FirstCharDiffers | user/bin/ed.c:1508-1525 | The first-character fast path skips only places where nothing matches |
| EdRegex.ParseWellFormed | user/bin/ed.c:1341-1474 | Whatever is accepted has `$` only at the end and looks for no NUL |
| EdRegex.AcceptedIsPattern | user/bin/ed.c:1341-1474 | Whatever is accepted is a pattern: brackets nest and carry their numbers, and written out and read again it is the same pattern |
| EdRegex.ReadBack | user/bin/ed.c:1341-1474 | Every printable pattern is read back from its text |
| EdRegex.PatternReadBack | user/bin/ed.c:1354-1370 | The same for whole patterns with their anchor, so every such pattern is compiled |
| PageTables.PageMap.MapPage | kernel/mm/pagetable.c:241-398 | Succeeds if and only if there are as many pages as tables missing on the way, and takes exactly those, all on the way to the page; then the page translates to `paddr` with the flags asked for (those for tables if a 1GB page mapped it already) and no other page translates differently, also when 1GB or 2MB pages are split; failure changes no translation; tables outside the tree are left alone |
| PageTables.OtherSpace | kernel/mm/pagetable.c:241-398 | So mapping in one address space leaves every translation of another one as it was |
| PageTables.PageMap.AlreadyMapped | kernel/mm/pagetable.c:307-314 | The comparison holds if and only if the entry is huge and through it the page translates to exactly `paddr` and these flags, those that the processor sets aside |
| PageTables.PageMap.Level | kernel/mm/pagetable.c:261-384 | One level of the way down, with its share of the tables that were missing; fails only when fewer pages are left than are missing below |
| PageTables.MissingStep | kernel/mm/pagetable.c:261-384 | The tables missing from a level down are those missing one level further down, and one more unless there was a link |
| PageTables.GiantFlags | kernel/mm/pagetable.c:307-314 | A writable 1GB page, then one of its pages mapped again without write permission for pages: the call succeeds and the page stays writable |
| PageTables.PageMap.Descend | kernel/mm/pagetable.c:261-384 | One level: an empty entry, a huge page or a link leads to a table afterwards and no page translates differently |
| PageTables.PageMap.Split | kernel/mm/pagetable.c:316-376 | The table that replaces a huge page |
| PageTables.SplitBehind | kernel/mm/pagetable.c:92-131 | Every page behind a split entry translates as through the huge entry |
| PageTables.SameThrough | kernel/mm/pagetable.c:92-131 | A change of one entry that leads every walk through it to the same leaf changes no translation of the whole tree |
| PageTables.PageWritten | kernel/mm/pagetable.c:386-391 | Writing the last-level entry maps that page and leaves all others |
| PageTables.Reaches | kernel/mm/pagetable.c:92-131 | In an unshared tree a walk from the root comes through every table on its path |
| PageTables.PageMap.Clone | kernel/mm/pagetable.c:463-580 | Succeeds if and only if there are as many pages as included tables, and takes exactly those; the clone translates every included address as the original, maps nothing below the excluded half, shares no table, and leaves the original untouched; a failing clone gives back exactly what the finished entries of the root took |
| PageTables.PageMap.CloneEntry | kernel/mm/pagetable.c:474-580 | One round of the cloning loops, with the copy below a link grafted in |
| PageTables.PageMap.CloneLast | kernel/mm/pagetable.c:463-472 | A table of the last level is copied, for one page |
| PageTables.PageMap.GiveUp | kernel/mm/pagetable.c:566-570 | The linked part of the copy is destroyed; nothing is left behind if and only if the number of tables is as before |
| PageTables.NothingLost | kernel/mm/pagetable.c:474-580 | A failing clone loses no page if and only if the pages run out between two entries of the root, or at once |
| PageTables.LosesOne | kernel/mm/pagetable.c:511-546 | A run: one page is mapped, two pages are left, the clone fails and gives back exactly one of the two |
| PageTables.CostOfTree | kernel/mm/pagetable.c:474-580 | A whole tree costs as many pages as it has tables |
| PageTables.PageMap.Destroy | kernel/mm/pagetable.c:584-602 | Every table page of the tree is freed exactly once, and nothing else |
| PageTables.PruneTree | kernel/mm/pagetable.c:584-602 | Taking the tables behind a link away leaves an unshared tree |
| PageTables.GraftTree | kernel/mm/pagetable.c:474-580 | Hanging a disjoint tree behind an empty entry gives an unshared tree |
| FreeChain.Simdisk.FreeBlock | tools/fsmaker/api.py:70-79 | Freeing is a push, also when the full list spills into a new node block |
| FreeChain.Simdisk.AllocBlock | tools/fsmaker/api.py:635-650 | Allocation is a pop, also when the list is refilled from a node block, and fails only on an empty stack |
| FreeChain.Simdisk.Format | tools/fsmaker/api.py:583-596 | Formatting builds the stack of all data blocks in order, for every disk size |
| S5Dirs.FileSystem.FindDirent | kernel/fs/s5fs/s5fs_subr.c:572-594 | The index of the entry with that name, or the end |
| S5Dirs.FileSystem.RemoveDirent | kernel/fs/s5fs/s5fs_subr.c:619-641 | Removal by swap with the last entry, and one link less |
| S5Dirs.RemovedNames | kernel/fs/s5fs/s5fs_subr.c:619-641 | That removal takes exactly one name out of the name map and keeps names distinct |
| S5Dirs.FileSystem.LinkDirent | kernel/fs/s5fs/s5fs_subr.c:688-717 | A new name and one link more, or an error and no change |
| S5Dirs.FileSystem.Append | kernel/fs/s5fs/s5fs_subr.c:703-709 | A new entry is written behind the others, or the write fails without change, exactly when a block is needed and cannot be had |
| S5Dirs.FileSystem.EnterFile | kernel/fs/s5fs/s5fs_subr.c:688-717 | As a map of names: one name more for a file, with its code; the invariant is kept |
| S5Dirs.FileSystem.Mknod | kernel/fs/s5fs/s5fs.c:380-409 | A new file under a new name with one link, or no change at all; each error code exactly in its case; the invariant is kept |
| S5Dirs.FileSystem.Link | kernel/fs/s5fs/s5fs.c:454-461 | One more name and link for a file, never for a directory; each error code exactly in its case, without any change; the invariant is kept |
| S5Dirs.FileSystem.Unlink | kernel/fs/s5fs/s5fs.c:474-490 | Exactly that name goes; an unheld file without links is freed; the invariant is kept |
| S5Dirs.FileSystem.Rename | kernel/fs/s5fs/s5fs.c:535-594 | Success if and only if the new name fits, the old one is of a file, and the new one is of another file, or is free and an entry for it can be written; an existing entry is reported if and only if both are names of one file; each other error code exactly in its case, and on an error nothing has changed; on success the file is under its new name in place of whatever file was there, not under the old one, with the link count it had; the invariant is kept on every outcome |
| S5Dirs.RenameOntoItself | kernel/fs/s5fs/s5fs.c:583 | A run of mknod, link and rename that ends with that error |
| S5Dirs.FileSystem.MakeWay | kernel/fs/s5fs/s5fs.c:562-581 | A file already under the new name is unlinked first and stays held, and its slot makes the following link succeed |
| S5Dirs.FileSystem.Reenter | kernel/fs/s5fs/s5fs.c:562-591 | What happens once the file is found: each outcome exactly in its case, with nothing changed on an error and the new name in place of the old one on success |
| S5Dirs.FileSystem.LetGo | kernel/fs/s5fs/s5fs.c:575-581 | The displaced file is let go only after the new link; it alone may be freed |
| S5Dirs.FileSystem.MoveName | kernel/fs/s5fs/s5fs.c:582-591 | The new link, letting go of the displaced file and the removal of the old name, in this order, leave the link count as it was; fails exactly when the link does, and then no inode but the one let go has changed |
| S5Dirs.FileSystem.DropName | kernel/fs/s5fs/s5fs.c:589 | The old name goes and the file has one link less |
| S5Dirs.FileSystem.Mkdir | kernel/fs/s5fs/s5fs.c:620-681 | A directory with `.` and `..`, two links, and one link more for the parent; each error code exactly in its case; every failing write undoes the rest |
| S5Dirs.FileSystem.MakeDir | kernel/fs/s5fs/s5fs.c:633-680 | The three writes in order, and what is undone when one of them fails |
| S5Dirs.FileSystem.Rmdir | kernel/fs/s5fs/s5fs.c:696-730 | Removes exactly an empty directory; each error code exactly in its case; the parent loses one link |
| S5Dirs.FileSystem.Lookup | kernel/fs/s5fs/s5fs.c:426-446 | The inode of the name or an error, as the map of names says; the assertion on the two lengths of the directory holds if and only if it was not removed |
| S5Dirs.LengthsAgree | kernel/fs/s5fs/s5fs_subr.c:578 | The two lengths of a directory differ exactly after its removal |
| S5Dirs.LookInRemoved | kernel/fs/s5fs/s5fs.c:696-730 | A run of mkdir, rmdir and lookup in the directory that is still held: the assertion fails |
| S5Dirs.TwoLinks | kernel/fs/s5fs/s5fs.c:696-730 | An empty directory has exactly two links, as asserted |
| S5Dirs.FileSystem.Put | kernel/fs/s5fs/s5fs.c:311-334 | The last reference to an inode without links frees it |
| S5Dirs.FileSystem.Release | kernel/fs/s5fs/s5fs.c:311-334 | Dropping the last outside reference frees an inode exactly when it has no links; the invariant is kept |
| S5Dirs.FileSystem.Calculate | kernel/fs/s5fs/s5fs.c:976-998 | The recursive recount tallies each directory once, terminates, and locks no directory whose loop is still running |
| S5Dirs.FileSystem.CheckRefcounts | kernel/fs/s5fs/s5fs.c:1003-1049 | Returns 0 if and only if the link count of every inode that is named equals the recount; in every reachable state it does |
| S5Dirs.AllMet | kernel/fs/s5fs/s5fs.c:976-998 | Every live directory is met by the recount, by induction on its depth |
| S5Files.File.BlockOnDisk | kernel/fs/s5fs/s5fs_subr.c:127-192 | A file block gets a place on disk if and only if as many blocks are free as it needs, one more for a first indirect block, and takes exactly those; no byte of the file changes |
| S5Files.File.GetPage | kernel/fs/s5fs/s5fs.c:904-937 | Bringing a page into the cache changes no byte of the file; each error exactly in its case, for reading and for writing, with the exact number of blocks taken |
| S5Files.File.WritePiece | kernel/fs/s5fs/s5fs_subr.c:320-339 | One block of a write: spliced in completely, or not at all, exactly as the free blocks allow |
| S5Files.File.Write | kernel/fs/s5fs/s5fs_subr.c:306-347 | A write overwrites exactly its bytes, clipped at the maximal size, and from a valid file is a splice with zero-filled gap; it succeeds if and only if all the blocks it needs are free, and takes exactly those; on an error the file holds exactly the bytes written so far and its length covers them |
| S5Files.NeedsAre | kernel/fs/s5fs/s5fs_subr.c:127-192 | A write needs one block for each of its pages that is neither cached nor on disk, and one for the indirect block if there is none and an uncached page lies behind the direct ones |
| S5Files.File.WriteNext | kernel/fs/s5fs/s5fs_subr.c:318-343 | One round of the write loop: what was needed so far has been taken, and a failure means the whole write cannot be had |
| S5Files.File.Read | kernel/fs/s5fs/s5fs_subr.c:238-272 | Exactly the requested slice, as far as the file goes; fails if and only if a page it uses is sparse, not cached, and without memory; no byte of the file changes |
| S5Files.WrittenIsSplice | kernel/fs/s5fs/s5fs_subr.c:326-343 | Where nothing lies behind the end, overwriting bytes is a splice of the file and keeps what lies behind the new end zero |
| S5Files.File.Truncate | kernel/fs/s5fs/s5fs.c:805-819 | For every file, also one with stale pages: it is empty; what lies behind its end reads as zero, as later writes rely on, if and only if no page cached without a block held anything; exactly as many blocks can be had again as were given back, less those that become nodes of the free list |
| S5Files.SparseFile | kernel/fs/s5fs/s5fs.c:904-937 | A run that ends with a written page that is cached without a block |
| S5Files.StalePage | kernel/fs/s5fs/s5fs.c:805-819 | Truncating that file and writing one byte at position 1 brings the old byte back at position 0 |
| S5Blocks.BlockStore.AllocBlock | kernel/fs/s5fs/s5fs_subr.c:371-391 | Hands out a block that was available, belongs to nobody and has no resident frame; fails if and only if list and chain are empty; exactly that block, and a node refilled from, stop being free |
| S5Blocks.BlockStore.Refill | kernel/fs/s5fs/s5fs_subr.c:375-387 | The next node comes into the super block and is itself lost; no other block becomes free or stops being free |
| S5Blocks.BlockStore.FreeBlock | kernel/fs/s5fs/s5fs_subr.c:402-432 | The block goes into the list, or becomes the node that takes the full list over; it is free once more and no other block is; no other block is written |
| S5Blocks.BlockStore.MapBlock | kernel/fs/s5fs/s5fs_subr.c:127-192 | Each error exactly in its case; otherwise the file block has a place, new only if it had none, and no other pointer of any inode changes; blocks stay pairwise distinct |
| S5Blocks.BlockStore.AddIndirect | kernel/fs/s5fs/s5fs_subr.c:154-173 | A new, cleared indirect block changes no pointer of any file; if the data block then fails it stays linked |
| S5Blocks.BlockStore.CacheAndClear | kernel/fs/s5fs/s5fs_subr.c:205-213 | Called only for a block without a resident frame, so no second frame is inserted |
| S5Blocks.BlockStore.MapEntry | kernel/fs/s5fs/s5fs_subr.c:175-191 | The entry in the indirect block, filled if missing; no other inode shares that block |
| S5Blocks.BlockStore.RemoveBlocks | kernel/fs/s5fs/s5fs_subr.c:761-797 | Each block of the inode, data, indirect and node alike, becomes free exactly as often as the inode had it, and no other block does; the inode is empty; free blocks, nodes and blocks of inodes stay pairwise distinct; how many more blocks can be handed out, exactly |
| S5Blocks.BlockStore.RemoveIndirect | kernel/fs/s5fs/s5fs_subr.c:779-796 | The indirect block and all it names become free, and no other block; entries are read from it while the blocks they name are freed, and stay readable throughout |
| S5Blocks.BlockStore.FreeEach | kernel/fs/s5fs/s5fs_subr.c:767-775 | Exactly the blocks named by the pointers become free |
| S5Blocks.BlockStore.constructor | tools/fsmaker/api.py:583-596 | On a freshly formatted disk of every size, each data block is free exactly once and all references are distinct |
| S5Blocks.SpillFrees | kernel/fs/s5fs/s5fs_subr.c:413-423 | The spill of a full list frees exactly the block given back |
| S5Blocks.PopSound | kernel/fs/s5fs/s5fs_subr.c:388-390 | Taking from the list keeps all references distinct, and the block taken is not resident |
| S5Blocks.RefillSound | kernel/fs/s5fs/s5fs_subr.c:375-387 | So does the refill |
| S5Blocks.PushSound | kernel/fs/s5fs/s5fs_subr.c:424-429 | So does giving back into the list |
| S5Blocks.SpillSound | kernel/fs/s5fs/s5fs_subr.c:413-423 | So does giving back into a new node |
| S5Blocks.HandedSound | kernel/fs/s5fs/s5fs_subr.c:127-192 | Blocks may pass between an inode and its caller as long as none is lost or doubled |
| S5Blocks.EntrySound | kernel/fs/s5fs/s5fs_subr.c:175-191 | A new entry in an indirect block keeps all references distinct |
| S5Blocks.IndirectSound | kernel/fs/s5fs/s5fs_subr.c:154-173 | A new indirect block keeps all references distinct |
| VfsRefs.Vfs.constructor | kernel/fs/vfs.c:81-97 | After mounting: the root has its own reference and that of the first current directory |
| VfsRefs.CountsFollow | kernel/fs/vfs_syscall.c:31-694 | The vnode counts are determined by open files, current directories and the root, so a call that leaves these alone leaves all counts alone |
| VfsRefs.NoLeak | kernel/fs/vfs_syscall.c:31-694 | Between calls a vnode is in memory if and only if an open file, a current directory or the root refers to it |
| VfsRefs.NoLostFile | kernel/fs/file.c:42-115 | Between calls an open file exists if and only if a descriptor names it |
| VfsRefs.Tokenize | kernel/fs/namev.c:71-100 | The next name of a path, and where to go on |
| VfsRefs.NamesReadBack | kernel/fs/namev.c:71-100 | The names of a path written out of names are those names |
| VfsRefs.Vfs.NamevLookup | kernel/fs/namev.c:31-42 | A step of a path, with a reference on success |
| VfsRefs.Vfs.NamevDir | kernel/fs/namev.c:150-202 | Ends where walking all names but the last ends, holding one reference to it, or fails with the first error, holding none; the name is the last one, or `.` |
| VfsRefs.Vfs.NamevOpen | kernel/fs/namev.c:227-275 | Finds, creates or fails as the path says, holding one reference exactly on success |
| VfsRefs.Vfs.Fcreate | kernel/fs/file.c:42-58 | One file with one reference in that descriptor and one reference to its vnode, or nothing |
| VfsRefs.Vfs.Fget | kernel/fs/file.c:64-72 | The file of a valid open descriptor with one reference more |
| VfsRefs.Vfs.Fput | kernel/fs/file.c:82-115 | One reference less; the last frees the file and puts its vnode |
| VfsRefs.Vfs.GetEmptyFd | kernel/fs/open.c:22-30 | The least free descriptor, or an error when none is free |
| VfsRefs.Vfs.DoOpen | kernel/fs/open.c:65-126 | Every error path leaves files, descriptors and counts as they were and has its code; success fills the least free descriptor with a new file on what the path names |
| VfsRefs.CreatedNotReadable | kernel/fs/open.c:96-103 | Opening a new file for reading with O_CREAT succeeds, and reading from it fails |
| VfsRefs.Vfs.DoRead | kernel/fs/vfs_syscall.c:31-53 | Counts balance on every path; only the position of that file moves, also on an error |
| VfsRefs.Vfs.DoWrite | kernel/fs/vfs_syscall.c:69-93 | Counts balance on every path; appending starts at the end |
| VfsRefs.Vfs.DoClose | kernel/fs/vfs_syscall.c:106-116 | The descriptor is empty and its file has one reference less, or is freed with its vnode put |
| VfsRefs.Vfs.DoDup | kernel/fs/vfs_syscall.c:127-144 | The least free descriptor names the same file, with one reference more |
| VfsRefs.Vfs.DoDup2 | kernel/fs/vfs_syscall.c:156-180 | The new descriptor names the same file with one reference more, what it named before has one less or is freed; nothing changes for equal descriptors |
| VfsRefs.Vfs.Replace | kernel/fs/vfs_syscall.c:170-179 | A file in hand goes into a descriptor in place of what was there; counts balance |
| VfsRefs.Vfs.DoMknod | kernel/fs/vfs_syscall.c:199-215 | Counts are as before on every path |
| VfsRefs.Vfs.DoMkdir | kernel/fs/vfs_syscall.c:237-291 | Counts are as before on every path, each with its code |
| VfsRefs.Vfs.DoRmdir | kernel/fs/vfs_syscall.c:309-344 | Counts are as before on every path; dot names are recognised only without a trailing slash |
| VfsRefs.DotSlash | kernel/fs/vfs_syscall.c:323-331 | Removing `a/.` is refused, and for `a/./` the file system is asked |
| VfsRefs.Vfs.DoUnlink | kernel/fs/vfs_syscall.c:358-401 | Counts are as before on every path, each with its code |
| VfsRefs.Vfs.DoLink | kernel/fs/vfs_syscall.c:420-463 | Counts are as before on every path, each with its code |
| VfsRefs.Vfs.DoRename | kernel/fs/vfs_syscall.c:497-555 | Counts are as before on every path, each with its code |
| VfsRefs.Vfs.DoChdir | kernel/fs/vfs_syscall.c:569-589 | Success moves the reference of the current directory; every error leaves it |
| VfsRefs.Vfs.DoGetdent | kernel/fs/vfs_syscall.c:605-624 | Counts balance on every path; an error of the file system is reported as an entry |
| VfsRefs.ErrorIsEntry | kernel/fs/vfs_syscall.c:618-623 | With a negative answer the call returns the size of an entry and the position goes back |
| VfsRefs.Vfs.DoLseek | kernel/fs/vfs_syscall.c:639-670 | Counts balance on every path; the new position, never a negative one |
| VfsRefs.Vfs.DoStat | kernel/fs/vfs_syscall.c:677-694 | Counts are as before on every path |
| SlabAllocator.NumObjsIsMost | kernel/mm/slab.c:111-126 | As many objects as fit beside the slab structure, each with its 16 bytes of control, and no more |
| SlabAllocator.CalcSlabSize | kernel/mm/slab.c:138-186 | The order with least waste among those searched, the smallest of them on a tie; panics exactly when no block holds one object |
| SlabAllocator.LayoutFits | kernel/mm/slab.c:255-313 | Front zones, bodies, rear zones, control words and slab structure are pairwise disjoint and lie within the page block, for every object size |
| SlabAllocator.Cache.constructor | kernel/mm/slab.c:191-222 | A new allocator, with room for two red zones added to the size, has the best order, no slab and no live object; asked for exactly when some block holds one object, since otherwise the source panics |
| SlabAllocator.Cache.Grow | kernel/mm/slab.c:255-313 | A new slab, all of whose objects are flagged free and in its free chain, with red zones set, in front of the list; no other slab and no red zone outside its block changes; or no change at all |
| SlabAllocator.Cache.SetZones | kernel/mm/slab.c:294-303 | The red zones of all objects of a block are set, and no word outside the block changes |
| SlabAllocator.WholeGrown | kernel/mm/slab.c:255-313 | If all red zones were intact, they are with the new slab |
| SlabAllocator.Cache.FindSlab | kernel/mm/slab.c:326-332 | The first slab in the list with a free object, all before it being full, or none exactly when all are full |
| SlabAllocator.Cache.ObjAlloc | kernel/mm/slab.c:318-369 | An object that nobody has, in every run, handed out behind its front zone: the first free one of the first slab that has one, or else the first one of a new slab; NULL if and only if every slab is full and no page block is left; panics if and only if a red zone of that object was broken before the call, which for a new slab is never; no red zone outside a new block changes |
| SlabAllocator.Cache.ObjFree | kernel/mm/slab.c:371-398 | For every object of every slab, live or not: panics exactly on a broken red zone, the assertion fails exactly if the object is not live, and otherwise exactly that object stops being live and becomes the first free one of its slab |
| SlabAllocator.Cache.CheckZones | kernel/mm/slab.c:32-41 | Both red zones of the object are as they were set |
| SlabAllocator.FlagTells | kernel/mm/slab.c:383-388 | In every reachable state an object is flagged free if and only if it is not live, and the control word of a live one leads to its slab, whose use count is not zero |
| SlabAllocator.CaughtTwice | kernel/mm/slab.c:371-398 | A run for every size: a free succeeds, a second one is caught, and so is one after an overrun |
| SlabAllocator.CaughtAtAlloc | kernel/mm/slab.c:358-360 | A run for every size: an object is freed and then written over, and the next allocation panics |
| SlabAllocator.ObjsApart | kernel/mm/slab.c:318-369 | In every reachable state any two objects, of one slab or of two, never overlap, their zones and control words included |
| SlabAllocator.HeadersApart | kernel/mm/slab.c:283-284 | Nor does an object overlap any slab structure |
| SlabAllocator.BodiesApart | kernel/mm/slab.c:318-369 | Writing within the body of an object touches no other body, no red zone, no control word and no slab structure |
| SlabAllocator.TakeOk | kernel/mm/slab.c:344-351 | The chain stays acyclic, one shorter, and the object, no longer flagged free, learns its slab |
| SlabAllocator.GiveOk | kernel/mm/slab.c:385-394 | The chain stays acyclic, one longer, with the object flagged free; the use count was not zero |
| SlabAllocator.FreshOk | kernel/mm/slab.c:267-292 | The threaded control words of a new block form one acyclic chain of all its objects |
| ElfStack.CalcArgSize | kernel/api/elf.c:390-449 | The size of vectors, strings and header tables |
| ElfStack.LoadArgs | kernel/api/elf.c:462-563 | The bytes written are exactly the head, the vectors, eight bytes left as they were, the strings and the last header table; behind them the buffer is as it was; they fill the computed size if and only if at most one table is named, or it is empty |
| ElfStack.Tiles | kernel/api/elf.c:390-449 | The pieces fill the computed size without gap or overlap if and only if the auxiliary vector names at most one header table, or that table is empty |
| ElfStack.TwoTables | kernel/api/elf.c:424 | Two entries for a table that is not empty: only the second table is there, and room for one stays unused |
| ElfStack.ReadBack | kernel/api/elf.c:462-563 | Following the user pointers from the low end recovers the argument count, argv, envp, the auxiliary vector with the moved table address, and the table |
| ElfStack.CopyStrings | kernel/api/elf.c:510-538 | The loop over a string vector, in place, with running vector and string positions |
| ElfStack.CopyAux | kernel/api/elf.c:540-556 | The loop over the auxiliary vector, in place, for any number of header tables: every entry that names one gets the same address, and the last table stays there |

## Left out

- VnodeCache.EveryRunIsSafe: testing the state and falling asleep are one step, as is a whole `vlock` by a caller, because the kernel is built without preemption (`Config.mk:41`) and runs on one processor (`kernel/main/smp.c:107`); the counter is an unbounded integer; more than one file system is not modelled.
- VnodeCache.NoRunGetsStuck: no fairness is assumed, so it says that a step exists, not that it is taken; locks that callers hold for ever are theirs to release.
- BTreeMemory.NodeMemory.Create: a failing node allocation is not modelled, since the callers use the pointer without testing it (`kernel/util/btree.c:131-132`, `kernel/util/btree.c:412-414`); `btree_init`, `btree_destroy`, printing and the walk of `btree_assert_sanity` are not either.
- BTree.DeleteIsRemoval: which map is left after deleting from a tree that holds a key that does not fit `int` is not stated; its shape and whether the call panics are.
- NodeArrays.Split: nodes have three keys and four children, the only size for which the loop of the source finishes; height is unbounded.
- PageCache.MemoryObject.CreateFrame: after a page number that does not fit `int` has come in, nothing further is stated about the object.
- PageCache.MemoryObject.GetFrame: one call at a time; a frame that is locked already would make the call wait, so it is not asked for.
- PageAllocator.Allocator.AddRange: ranges reach from one page boundary to another (what happens otherwise is `PageAllocator.RangeIsMeant`), do not overlap what is free or live, and leave out the page 0xb1000, as the source asserts or relies on; `page_init` is the state it leaves.
- PageAllocator.Allocator.AllocAnywhere: orders are below 31, since the source shifts an `int`, and at most 2^51 pages.
- EdRegex.Matcher.Advance: `locs` is 0 as in non-global mode.
- EdRegex.Editor.Compile: where the source calls `error` the model stops and reports failure, because `error` returns there; global substitution is not modelled.
- PageTables.PageMap.MapPage: one page at a time, with PRESENT in both flag words; the shortcut of the walk for the kernel's physical map is not modelled; that huge entries are aligned to their size is an assumption: `pt_map_range` writes them without testing it (`kernel/mm/pagetable.c:291-297`, `kernel/mm/pagetable.c:342-348`).
- FreeChain.Simdisk.Format: the inode table and the super block's other fields are not modelled.
- S5Dirs.FileSystem.Rename: names are neither empty nor `.` nor `..`, and all but the new one are shorter than 28 characters.
- S5Dirs.FileSystem.Unlink: directories are kept out by the caller, as in `do_unlink`.
- S5Dirs.FileSystem.Mknod: a directory is measured in entries and blocks; which blocks it has is the subject of `S5Blocks`.
- S5Files.File.Write: `len` is positive, as the source relies on; block numbers are abstracted to whether a block has a place, and contents are those in memory.
- S5Files.File.BlockOnDisk: which block is handed out is the subject of `S5Blocks`.
- S5Blocks.BlockStore.FreeBlock: the words behind the thirty of a new node are those of the block only if it held pointers before; they are never read.
- S5Blocks.BlockStore.RemoveBlocks: the frames of the file itself are the subject of `S5Files`; `s5_alloc_inode` and `s5_free_inode` are not modelled.
- VfsRefs.Vfs.DoRename: the walk of `vlock_in_order` towards the root, here and in `do_link`, is not modelled, nor is any locking.
- VfsRefs.Vfs.DoOpen: one call at a time; operations of a file system add references only through their out-parameters; processes are neither created nor ended.
- SlabAllocator.Cache.ObjAlloc: of the memory of an object only red zones and control words are modelled, so whoever uses objects breaks a zone through `Overrun` or not at all; sizes are unbounded integers; `kmalloc` is not modelled.
- SlabAllocator.Cache.ObjFree: the pointer is to some object of the allocator; any other one makes the source read words that are no zone.
- ElfStack.LoadArgs: all header tables that are named have the same size, as in the source; the copy into user space is not modelled.
- ElfStack.ReadBack: the stack lies below 2^64 and not at 0.
- `pt_unmap_range`, multi-page `pt_map_range` over huge pages, and the kernel's own page-table set-up are not modelled.
- ramfs, `vmmap`, shadow objects, fault handling, pipes and access checks are stubs or simpler copies and would add nothing.
- Interrupts, hardware set-up, the scheduler, terminals and the shell are not modelled.
- The string and number formatting, list, timer and time code would add only easy members.
