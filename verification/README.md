# A verified model of the kernel's memory managers, map and scheduler

This Dafny project models the state-changing core of a small 64-bit kernel and proves what that core is meant to
guarantee. `dafny verify dfyconfig.toml` checks all of it.

The code that rewrites structures in place is modelled as classes whose methods rewrite fields in the same order and
under the same conditions; each method is proved against a pure description of the structure, and the properties are
lemmas about that description.

- **Red-black map** (`TreeShape`, `RedBlack`, `SearchOrder`, `Map`). Nodes with father links. A tree value and a zipper
  `Context` describe the heap around the node at hand; `Valid` says that the links spell out a red-black search tree.
  Insertion and deletion keep it through every rotation, every leaf case and both repair loops, refine the map they
  stand for, and leave all other keys in the same node objects.
- **Free memory manager** (`BlockTree`, `DoubleLinkedTree`, `MissingLinks`, `FreeTable`, `FreeMemoryManager`). Free blocks
  hang in two unbalanced search trees at once, in nodes that live in pages taken from the managed memory. `free` adds
  the bytes of its range, `alloc` takes a best fit from the top of a block, neither loses or invents a byte, and the
  node pages stay dense, chained and always available. Two link writes are missing in the original
  (`src/memory/FreeMemoryManager.cpp:437-453` and `:481-490`). `RemoveNode` and `AddNode` take a flag `intended`:
  with `false` they do exactly what the original does, and their contracts say exactly when the links then stay
  consistent; the manager itself uses `true`, which adds the missing write. `MissingLinks` holds short
  runs of the code as written that break a tree.
- **Memory map** (`MemoryMap`). The firmware's memory ranges are registered with the manager page by page.
- **Kernel heap** (`Arena`, `KernelMemoryAllocator`). `malloc` and `free` on top of the manager: free lists threaded
  through the pages, headers found by masking. Blocks in use and free blocks partition every page, and the heap and the
  manager together conserve memory.
- **Paging** (`Paging`, `PageFrames`). `mapPage` on four levels of tables in physical memory, against the map from pages to
  frames that the processor derives from them, large pages included. `mapPage` looks at the frame number of an entry and
  not at its present bit. Root entry 0 of every task has a frame number and is not present
  (`src/boot/kernel_loader.asm:451`), so a page below 512 GB is never mapped although the result is 0; the contracts say
  exactly when result 0 means what it says.
- **Tasks** (`LinkedList`, `Scheduling`, `TaskMachine`, `Kernel`). Every section that runs with interrupts off is one
  step. `Scheduling` says what each step does to a value, `Kernel` does it in place, and `TaskMachine` lets the steps of
  all tasks interleave freely: mutual exclusion, no lost wakeup, an ordered sleep queue, round robin.
- **Strings** (`Strings`). `strlen` eight bytes at a time.

Assumptions, each visible in a precondition or in a predicate named here: a task blocks only while another one is READY
and the page of a new task does not say that it is blocked (`TaskMachine.Careful`; `TaskMachine.NeverAlone` derives the
first from task 0 not sleeping and nobody sleeping with the mutex in hand); a task unlocks only what it holds
(`TaskMachine.Allowed`); the memory manager is used with multiples of 4096 bytes; a range that is freed does not begin
exactly where a shorter free block begins; a size asked of `malloc` is more than 4111 below 2^64. One more is built into the
steps: `schedule` switches interrupts on just before it switches tasks (`src/task/TaskManager.cpp:82-84`), and an interrupt
in between is not modelled.

## Model

| member | source | states |
|---|---|---|
| RedBlackMap.Map.HasKey | src/lib/collections/Map.hpp:194-210 | true exactly for the keys of the map, after at most 2·log2(n+1) turns of the loop for n keys |
| RedBlackMap.Map.GetData | src/lib/collections/Map.hpp:214-230 | the data stored last under the key, or none if the key is absent, within the same bound |
| RedBlackMap.Map.SetData | src/lib/collections/Map.hpp:233-291 | the tree stays red-black and ordered; the map is updated at one key; an existing key keeps its node, a new key costs exactly one node |
| RedBlackMap.Map.RemoveKey | src/lib/collections/Map.hpp:294-737 | the tree stays red-black and ordered; exactly the given key disappears; all other keys stay in their node objects; exactly that key's node is given back, none if it is absent |
| RedBlackMap.Map.RotateLeft | src/lib/collections/Map.hpp:762-787 | which links a left rotation changes, including the root |
| RedBlackMap.Map.RotateRight | src/lib/collections/Map.hpp:790-815 | which links a right rotation changes, including the root |
| RedBlackMap.Map.FixContinuousRedNodeProblem | src/lib/collections/Map.hpp:818-896 | from one red node below a red one, anywhere in the tree, to a red-black tree with the same sequence of nodes |
| RedBlackMap.Map.FixUnbalancedChildrenProblem | src/lib/collections/Map.hpp:899-1084 | from a tree that is red-black except that one black subtree is one black short, to a red-black tree with the same sequence of nodes; it terminates although one case moves downwards |
| RedBlackMap.Map.TurnRedFatherLeft | src/lib/collections/Map.hpp:899-1084 | below a red father whose sibling has a black inner child one rotation ends the repair |
| RedBlackMap.Map.SinkLeft | src/lib/collections/Map.hpp:899-1084 | a red sibling below a black father: the short subtree sinks one level, gets a red father and a black sibling, and is still one black short |
| RedBlackMap.Map.Whiten | src/lib/collections/Map.hpp:899-1084 | a black sibling without red children turns red below a black father: now the father is one black short |
| RedBlackMap.Map.LiftInnerLeft | src/lib/collections/Map.hpp:899-1084 | a red inner child of the sibling of a removed leaf repairs the shortage below a red father |
| RedBlackMap.Map.MendLeafBelowRed | src/lib/collections/Map.hpp:463-734 | a removed black leaf below a red father leaves a red-black tree |
| RedBlackMap.Map.MendLeafBelowBlack | src/lib/collections/Map.hpp:463-734 | a removed black leaf below a black father leaves a red-black tree, by the sibling's colour and children |
| RedBlackMap.Map.LeafRedSiblingLeft | src/lib/collections/Map.hpp:463-734 | the case of a red sibling of a removed black leaf |
| RedBlackMap.Map.SwapRightAt | src/lib/collections/Map.hpp:316-387 | a node and its successor trade places by relinking: everything else of the tree is the same, the removed node is lower, the colours stay where they were |
| RedBlackMap.Map.SwapLeftAt | src/lib/collections/Map.hpp:388-458 | the same for the predecessor |
| RedBlackMap.Map.RemoveAt | src/lib/collections/Map.hpp:315-734 | the node at hand leaves the tree through swaps and a leaf case; the order of all other nodes stays |
| RedBlackMap.Map.Cleanup | src/lib/collections/Map.hpp:749-759 | every node below the given one is given back exactly once |
| RedBlackMap.Map.Clear | src/lib/collections/Map.hpp:185-191 | the map is empty and no node is left |
| RedBlackMap.Map.constructor | src/lib/collections/Map.hpp:171-173 | a new map is empty and valid |
| TreeShape.PlugInOrder | src/lib/collections/Map.hpp:762-815 | the sequence of a whole tree is that of the focused subtree between those of its surroundings |
| TreeShape.PlugLinked | src/lib/collections/Map.hpp:83-102 | links that fit around a place and inside it fit together, father links included |
| TreeShape.LeftRotation | src/lib/collections/Map.hpp:762-787 | the links written by a left rotation spell out the rotated tree |
| TreeShape.RightRotation | src/lib/collections/Map.hpp:790-815 | the links written by a right rotation spell out the rotated tree |
| TreeShape.RotatedLeftKeeps | src/lib/collections/Map.hpp:762-787 | a left rotation keeps the sequence and the set of nodes |
| TreeShape.Path.PathSwapped | src/lib/collections/Map.hpp:315-459 | the link writes of a swap exchange two nodes on a path and leave all other links in place, adjacent nodes included |
| TreeShape.RestOfSwapRight | src/lib/collections/Map.hpp:316-387 | a swap with the successor keeps the order of all nodes but the one to be removed |
| RedBlack.PlugRedBlack | src/lib/collections/Map.hpp:818-1084 | a subtree that fits its surroundings in colour and black height makes a red-black whole |
| RedBlack.LightSibling | src/lib/collections/Map.hpp:899-1084 | next to a subtree that is one black short the sibling is a node, and a black sibling has the black height that the cases need |
| RedBlack.LeafGone | src/lib/collections/Map.hpp:463-734 | what a removed leaf leaves behind: nothing to do for a red leaf, a shortage of one for a black one |
| RedBlack.SwapKeepsSound | src/lib/collections/Map.hpp:338-340 | exchanging cells while the colours stay keeps the tree red-black |
| SearchOrder.ContentsWithout | src/lib/collections/Map.hpp:294-737 | taking one cell out of an ascending sequence takes its key out of the map and no other |
| SearchOrder.ContentsWith | src/lib/collections/Map.hpp:259-286 | putting a cell into its place in an ascending sequence adds its key to the map |
| SearchOrder.SearchEnd | src/lib/collections/Map.hpp:196-210 | a search that falls off the tree has excluded every node |
| SearchOrder.LogarithmicHeight | src/lib/collections/Map.hpp:194-230 | a red-black tree of n nodes has a height of at most 2·log2(n+1) |
| DoubleLinkedTrees.DoubleLinkedTree.RemoveNode | src/memory/FreeMemoryManager.cpp:364-459 | the node is cut out and its left subtree hung below the leftmost node of the right one; as written the links stay consistent if and only if the node is not an inner node with two children |
| DoubleLinkedTrees.DoubleLinkedTree.AddNode | src/memory/FreeMemoryManager.cpp:461-520 | the node ends up where its key belongs, equal keys to the right; as written the links stay consistent if and only if the search does not meet an equal key with a right child |
| DoubleLinkedTrees.DoubleLinkedTree.FindNode | src/memory/FreeMemoryManager.cpp:559-625 | on any ordered tree with duplicates: the greatest key at most the value, the least key at least the value, or null exactly when there is none |
| MissingLinks.EqualKeyBreaksLinks | src/memory/FreeMemoryManager.cpp:481-490 | a run of three insertions as written after which the tree is no longer linked |
| MissingLinks.InnerRemovalBreaksLinks | src/memory/FreeMemoryManager.cpp:437-453 | a run of four insertions and one removal as written after which the tree is no longer linked |
| MissingLinks.EqualSizesBreakIndices | src/memory/FreeMemoryManager.cpp:160-177 | as written, three blocks of one size that touch nothing leave the size index broken |
| BlockTree.RemovedOrdered | src/memory/FreeMemoryManager.cpp:364-459 | removal keeps the search order and takes exactly one node |
| BlockTree.RemovedInOrder | src/memory/FreeMemoryManager.cpp:364-459 | removal keeps the sequence of the other nodes |
| BlockTree.InsertedOrdered | src/memory/FreeMemoryManager.cpp:461-520 | insertion keeps the search order and adds exactly one node |
| BlockTree.MovedFocus | src/memory/FreeMemoryManager.cpp:523-557 | after a move the links spell out the same tree with one node replaced, root or not |
| BlockTree.RenamedInOrder | src/memory/FreeMemoryManager.cpp:523-557 | a move replaces one node in the sequence and changes nothing else |
| BlockTree.SplicedFocus | src/memory/FreeMemoryManager.cpp:400-457 | the links after the removal of a node with two children, with and without the missing write |
| BlockTree.SqueezedFocus | src/memory/FreeMemoryManager.cpp:481-490 | the links after an insertion above the right child of an equal key |
| FreeTable.AddedIsAll | src/memory/FreeMemoryManager.cpp:105-129 | freeing a range makes all of it free if and only if no free block begins and ends inside it |
| FreeTable.DisjointAdded | src/memory/FreeMemoryManager.cpp:105-129 | a range apart from free memory is added whole |
| FreeTable.CutFits | src/memory/FreeMemoryManager.cpp:105-129 | the cut range fits between its neighbours and is exactly what freeing adds |
| FreeTable.FreedBytes | src/memory/FreeMemoryManager.cpp:131-204 | joining a range with the blocks it touches adds exactly its bytes |
| FreeTable.FreedWellSpaced | src/memory/FreeMemoryManager.cpp:131-204 | afterwards blocks are non-empty, disjoint and never adjacent |
| FreeTable.FreedTotal | src/memory/FreeMemoryManager.cpp:131-204 | the sum of all sizes grows by the size of the range |
| FreeTable.TakenBytes | src/memory/FreeMemoryManager.cpp:263-304 | taking the top of a block takes exactly those bytes, and they were free |
| FreeTable.PassedBytes | src/memory/FreeMemoryManager.cpp:219-233 | another node for the same block changes neither the bytes nor the sum |
| FreeMemory.PageLinkNode.AllocNode | src/memory/FreeMemoryManager.cpp:630-638 | the next unused node of the page, or null when all fifty are used |
| FreeMemory.PageLinkNode.PopNode | src/memory/FreeMemoryManager.cpp:640-649 | how many nodes are given back, for every count |
| FreeMemory.FreeMemoryManager.constructor | src/memory/FreeMemoryManager.cpp:29-45 | the manager starts with two empty node pages at their fixed addresses, empty trees and no free memory |
| FreeMemory.FreeMemoryManager.Free | src/memory/FreeMemoryManager.cpp:82-244 | with the two link writes restored: both trees stay search trees over the same nodes; the memory answered for grows by exactly the bytes of the range that are added; the total stays the sum of all sizes; node pages included |
| FreeMemory.FreeMemoryManager.Alloc | src/memory/FreeMemoryManager.cpp:246-318 | with the two link writes restored: null exactly when no block is large enough; otherwise the upper end of a best fit that was wholly free, and exactly those bytes leave the memory answered for |
| FreeMemory.FreeMemoryManager.FreeRange | src/memory/FreeMemoryManager.cpp:82-234 | with the two link writes restored: the same for one call that leaves the node pages alone |
| FreeMemory.FreeMemoryManager.AllocRange | src/memory/FreeMemoryManager.cpp:246-304 | with the two link writes restored: the same for one call that leaves the node pages alone |
| FreeMemory.FreeMemoryManager.AdjustPageLinkNodes | src/memory/FreeMemoryManager.cpp:49-77 | with the two link writes restored: one step after a settled state the node pages are settled again, no byte is lost, and a page for it is always available; a page goes with fewer than six nodes in the current page, a best fit comes with more than forty-four in the next one, and otherwise nothing happens |
| FreeMemory.FreeMemoryManager.UsedCountsBlocks | src/memory/FreeMemoryManager.cpp:165-177 | as many nodes are in use as there are free blocks |
| FreeMemory.FreeMemoryManager.Join | src/memory/FreeMemoryManager.cpp:133-177 | with the two link writes restored: the range becomes part of the block before it, of the block after it, or a block of its own, in both trees |
| FreeMemory.FreeMemoryManager.Merge | src/memory/FreeMemoryManager.cpp:178-234 | with the two link writes restored: two blocks that touch now become one; the merge to the left is never reached |
| FreeMemory.FreeMemoryManager.Relocate | src/memory/FreeMemoryManager.cpp:152-158 | with the two link writes restored: a block whose keys were changed in place is found again in both trees under its new keys |
| FreeMemory.FreeMemoryManager.AddBlock | src/memory/FreeMemoryManager.cpp:160-177 | a new block enters both indices and nothing else changes; as written the indices survive if and only if no search meets an equal key with a right child |
| FreeMemory.FreeMemoryManager.Unregister | src/memory/FreeMemoryManager.cpp:211-217 | a block leaves both indices; as written they survive if and only if its node is in neither of them an inner one with two children |
| FreeMemory.FreeMemoryManager.Resize | src/memory/FreeMemoryManager.cpp:141-143 | with the two link writes restored: the same for the size alone |
| FreeMemory.FreeMemoryManager.MoveNode | src/memory/FreeMemoryManager.cpp:523-557 | the links around a node in both trees lead to its new place |
| FreeMemory.FreeMemoryManager.Transplant | src/memory/FreeMemoryManager.cpp:226-233 | a move with the root fix-ups keeps both trees, even when the node is a root of one or both |
| FreeMemory.FreeMemoryManager.DropBlock | src/memory/FreeMemoryManager.cpp:269-297 | with the two link writes restored: a block disappears and the last node fills its hole, or is the hole itself |
| FreeMemory.FreeMemoryManager.TakeSlot | src/memory/FreeMemoryManager.cpp:165-168 | an unused node of the current or the next page; the used ones stay a dense prefix |
| FreeMemory.FreeMemoryManager.DropSlot | src/memory/FreeMemoryManager.cpp:219-224 | the last used node is given back |
| FreeMemory.FreeMemoryManager.TakePage | src/memory/FreeMemoryManager.cpp:61-75 | with the two link writes restored: the next page is nearly full: a page of free memory becomes the new next page |
| FreeMemory.FreeMemoryManager.GiveBackPage | src/memory/FreeMemoryManager.cpp:50-60 | with the two link writes restored: the current page is nearly empty: the next page becomes free memory |
| FreeMemory.FreeMemoryManager.GetTotalFreeMemory | src/memory/FreeMemoryManager.cpp:320-322 | the sum of the sizes of all free blocks |
| FreeMemory.FreeMemoryManager.GetMaxAllocatableMemorySize | src/memory/FreeMemoryManager.cpp:324-336 | the size of a largest block, or 0 without blocks |
| MemoryMap.AlignExact | src/memory/MemoryManager.cpp:89-120 | the registered bytes of a range are exactly those of its whole pages beyond 15 MB |
| MemoryMap.ProcessArds | src/memory/MemoryManager.cpp:49-125 | after all ranges, or the first 33 if there are more, the manager answers for what it did before and for exactly the whole usable pages reported beyond 15 MB |
| Arena.BlockInPage | src/memory/ArenaMemoryManager.cpp:17-49 | a block lies between the header and the end of its page, and masking its address gives the page |
| Arena.BlocksApart | src/memory/ArenaMemoryManager.cpp:17-26 | different blocks of a page do not overlap |
| Arena.PageUsedUp | src/memory/ArenaMemoryManager.cpp:17-45 | every byte of a page behind the header lies in a block, but for an end too short for one more block |
| Arena.BlockSizes | src/memory/ArenaMemoryManager.cpp:32-45 | the seven sizes from 16 to 1024 bytes, and 255 down to 3 blocks of them in a page |
| Arena.Disjoint | src/memory/KernelMemoryAllocator.cpp:37-143 | what two live pointers stand for never overlaps |
| Arena.HeadersSafe | src/memory/KernelMemoryAllocator.cpp:55-58 | no live pointer stands for a byte of a header |
| Arena.LinksSafe | src/memory/KernelMemoryAllocator.cpp:99-105 | no live pointer stands for a byte of the links of a free block |
| Arena.LinksOutsideHeaders | src/memory/KernelMemoryAllocator.cpp:88-97 | the links of a free block and a header never overlap |
| Arena.LinksApart | src/memory/KernelMemoryAllocator.cpp:88-97 | the links of two free blocks never overlap |
| Arena.HeaderFound | src/memory/KernelMemoryAllocator.cpp:114-119 | masking a live pointer finds the header that was written for it, small or large |
| Arena.CutParted | src/memory/KernelMemoryAllocator.cpp:74-97 | a new page adds its blocks to the free ones and keeps the partition |
| Arena.PopParted | src/memory/KernelMemoryAllocator.cpp:99-105 | the first free block becomes a live one and keeps the partition |
| Arena.PushParted | src/memory/KernelMemoryAllocator.cpp:123-139 | a live block becomes a free one and keeps the partition |
| Arena.PushedThreaded | src/memory/KernelMemoryAllocator.cpp:126-139 | the links after a push spell out the longer list |
| Arena.LinkNext | src/memory/KernelMemoryAllocator.cpp:90-94 | one turn of the loop links one more block of a new page |
| KernelHeap.KernelMemoryAllocator.constructor | src/memory/ArenaMemoryManager.cpp:32-45 | a heap without pages, all memory still with the manager |
| KernelHeap.KernelMemoryAllocator.Init | src/memory/ArenaMemoryManager.cpp:32-45 | seven classes with empty lists, whose sizes and numbers of blocks are those that `Arena.BlockSizes` and `Arena.PageUsedUp` pin down |
| KernelHeap.KernelMemoryAllocator.Malloc | src/memory/KernelMemoryAllocator.cpp:37-106 | a pointer that was not live, now live with the size asked for, and the whole new state of the heap and the manager: a small size gets the first free block of the smallest class that is large enough, which is given a page only if it has none; a large one gets exactly the pages it needs from the manager; null, with nothing changed, exactly for size 0 or when pages are needed and not available; what users have written stays |
| KernelHeap.KernelMemoryAllocator.Free | src/memory/KernelMemoryAllocator.cpp:108-143 | exactly the given pointer stops being live: a large one gives the pages that its header counts back to the manager, a small one becomes the first free block of its class, and nothing else changes; what users have written stays |
| KernelHeap.KernelMemoryAllocator.FreeUndoesMalloc | src/memory/KernelMemoryAllocator.cpp:37-143 | `free` right after `malloc` restores the heap and the manager, except that a page cut for it stays with the heap, all of its blocks free |
| KernelHeap.KernelMemoryAllocator.LostNone | src/memory/KernelMemoryAllocator.cpp:114-119 | a large run is given back whole if and only if it has less than 2^32 pages |
| KernelHeap.KernelMemoryAllocator.PagesSuffice | src/memory/KernelMemoryAllocator.cpp:43-49 | the pages asked for have room for header and block if and only if the 64-bit sums do not wrap around, and one page less has not |
| KernelHeap.KernelMemoryAllocator.NoPages | src/memory/KernelMemoryAllocator.cpp:43-49 | a size for which no page at all is asked |
| KernelHeap.KernelMemoryAllocator.FindClass | src/memory/KernelMemoryAllocator.cpp:65-70 | the smallest class that is large enough |
| KernelHeap.KernelMemoryAllocator.Cut | src/memory/KernelMemoryAllocator.cpp:81-96 | a new page becomes a list of all its blocks |
| KernelHeap.KernelMemoryAllocator.Pop | src/memory/KernelMemoryAllocator.cpp:72-105 | the first free block of a class goes live, and the rest of the list stays threaded |
| KernelHeap.KernelMemoryAllocator.Push | src/memory/KernelMemoryAllocator.cpp:123-139 | a block returns to the head of its list |
| KernelHeap.KernelMemoryAllocator.UserWrites | src/memory/KernelMemoryAllocator.cpp:99-105 | whatever byte of a live block is written, and whatever headers and links are read out of the bytes around it afterwards, the heap stays consistent |
| KernelHeap.AllocPage | src/memory/KernelMemoryAllocator.cpp:159-171 | whole pages that leave the manager, or 0 exactly when there is no block large enough |
| KernelHeap.FreePage | src/memory/KernelMemoryAllocator.cpp:173-177 | exactly these pages return to the manager |
| Paging.PathNamesPage | src/memory/MemoryManager.cpp:193-196 | two addresses have the same four indices if and only if they lie in the same page |
| Paging.PathCounts | src/memory/MemoryManager.cpp:193-196 | the four indices are the digits of the page number, highest first; the last ones count the small pages inside a large page |
| Paging.WalkElsewhere | src/memory/MemoryManager.cpp:185-268 | a changed entry matters only to the pages whose path goes through it, since no table is shared, even among entries that are not present or map large pages |
| Paging.ExtendedWalk | src/memory/MemoryManager.cpp:203-214 | a blank table in a blank entry maps nothing |
| Paging.WalkLocal | src/memory/MemoryManager.cpp:185-268 | what the processor finds on a path depends on the tables it reads there and on nothing else, large pages included |
| Paging.ForeignStays | src/memory/MemoryManager.cpp:185-268 | writes to the own tables, below the own root entries, leave every page under the other root entries as it was, whatever is there |
| Paging.AddressSpace.NextTable | src/memory/MemoryManager.cpp:203-240 | one level: the frame that the entry has, or a new table from the free frames; no mapping changes; 0 exactly when the entry has no frame and none is free |
| Paging.AddressSpace.MapPage | src/memory/MemoryManager.cpp:185-268 | all of memory and the free frames after every result. 0 exactly when the free frames suffice for the missing tables, and then exactly one frame for each of them has been taken; if every entry on the way that had a frame was present and not large, the page leads to the frame with the rights asked for as far as those entries grant them and every other page is as before, and otherwise no page has changed at all. 1 changes nothing. After 2 all free frames have been taken, the root entry has lost its frame and the tables below it are free, even if they were in use |
| Paging.BuiltKeeps | src/memory/MemoryManager.cpp:253-268 | entries keep all their bits but present, rights and frame number, and only entries on the way change those |
| Paging.MappedAsAsked | src/memory/MemoryManager.cpp:200-214 | after result 0 the page is mapped as asked if and only if the path was open and granted the rights, or it was mapped so before |
| Paging.AddressSpace.SolvePageFault | src/interrupt/PageFaultException.cpp:133-165 | the kernel goes on exactly for addresses of the lower half with enough free frames; exactly one frame for the page and one for each missing table have been taken, and the page has its frame, which is neither free nor a table, if the path was open |
| Paging.NewTaskFits | src/task/TaskManager.cpp:210-218 | the copy of the root table that a new task gets, with large pages in its upper half and the stale entry 0, is one that `mapPage` can work on |
| Paging.BottomClosed | src/boot/kernel_loader.asm:448-455 | root entry 0 keeps a frame number after the loader has cleared its low word, so no path below 512 GB is open |
| Paging.BottomLost | src/interrupt/PageFaultException.cpp:133-165 | a new task that touches an address below 512 GB: `mapPage` returns 0 and the page is not mapped |
| PageFrames.AllocFrame | src/memory/MemoryManager.cpp:167-169 | a page from the memory manager is one free frame, and no other frame stops being free |
| PageFrames.FreeFrame | src/memory/MemoryManager.cpp:181-183 | a page given back to the memory manager is one more free frame |
| LinkedLists.LinkedList.Append | src/lib/collections/LinkedList.cpp:15-35 | the node is the new tail of the chain |
| LinkedLists.LinkedList.InsertWhen | src/lib/collections/LinkedList.cpp:66-134 | the node goes into the first gap judged 0 if no gap before it is judged negative, else nothing changes |
| LinkedLists.LinkedList.Remove | src/lib/collections/LinkedList.cpp:151-172 | exactly the given node leaves the chain |
| LinkedLists.LinkedList.RemoveFirst | src/lib/collections/LinkedList.cpp:183-201 | the head leaves the chain, or null for an empty one |
| LinkedLists.LinkedList.Get | src/lib/collections/LinkedList.cpp:246-275 | the node at the index, from either end, or null beyond the end |
| LinkedLists.LinkedList.IndexOf | src/lib/collections/LinkedList.cpp:278-288 | the place of the node, or -1 if it is not in the chain |
| LinkedLists.LinkedList.Clear | src/lib/collections/LinkedList.cpp:298-300 | the chain is empty |
| Scheduling.ScheduleChooses | src/task/TaskManager.cpp:55-86 | the first READY task after the last choice in cyclic order; without a READY task the last choice again, and what runs is not READY |
| Scheduling.Fair | src/task/TaskManager.cpp:55-86 | a task READY at every one of 256 calls is chosen by one of them, from any state and whatever the other tasks do |
| Scheduling.WakeupExact | src/interrupt/ClockInterrupt.cpp:37-49 | with a sorted queue a sleeper is made READY if and only if it is due |
| Scheduling.PutToSleepKeepsSorted | src/interrupt/ClockInterrupt.cpp:67-117 | the sleep queue stays sorted by wakeup moment and gains exactly the sleeper |
| Scheduling.NeverEarly | src/interrupt/ClockInterrupt.cpp:72 | a sleeper is never due early if and only if the 64-bit sum does not wrap around |
| TaskMachine.Always | src/concurrent/Mutex.cpp:26-56 | the invariant holds in every state of every run, for every interleaving |
| TaskMachine.StepExact | src/concurrent/Mutex.cpp:26-56 | what each step of each run changes, task by task: only a task itself blocks, only unlocking and the clock make one READY; who is in which queue and in which order; who holds the mutex; and who runs next, which is whoever runs now unless the step calls `schedule` |
| TaskMachine.MutualExclusion | src/concurrent/Mutex.cpp:26-56 | at most one task holds the mutex, and none gets in while one does |
| TaskMachine.NoLostWakeup | src/concurrent/Mutex.cpp:26-56 | a blocked task is in exactly one queue exactly once; a waiter of the mutex waits for another task that holds it, and its unlock makes the waiter READY |
| TaskMachine.RoundRobin | src/task/TaskManager.cpp:55-86 | wherever in a run, a task that is READY throughout 256 calls of the scheduler gets the processor in one of them, whatever the others do |
| TaskMachine.LockKeeps | src/concurrent/Mutex.cpp:26-40 | a pass of `lock` keeps the invariant if and only if the task gets the mutex or another task is READY |
| TaskMachine.UnlockKeeps | src/concurrent/Mutex.cpp:42-56 | unlock keeps the invariant and makes every waiter READY |
| TaskMachine.SleepKeeps | src/interrupt/SystemCall.cpp:273-278 | going to sleep keeps the invariant if and only if the task does not really sleep or another task is READY |
| TaskMachine.TickKeeps | src/interrupt/ClockInterrupt.cpp:51-64 | a clock interrupt keeps the invariant |
| TaskMachine.CreateKeeps | src/task/TaskManager.cpp:143-148 | a new task keeps the invariant if and only if the page it is made from does not say by chance that it is blocked |
| TaskMachine.NeverAlone | src/concurrent/Mutex.cpp:26-56 | in a run in which task 0 does not sleep and nobody sleeps holding the mutex, another task is READY whenever one blocks, task 0 included |
| TaskMachine.DisciplineSuffices | src/concurrent/Mutex.cpp:26-56 | so everything proved of runs holds of such runs without a look at the other tasks |
| TaskMachine.TickWakesDue | src/interrupt/ClockInterrupt.cpp:51-64 | in every run a clock interrupt makes a blocked task READY if and only if it sleeps and its moment has come |
| TaskMachine.SleepsItsTime | src/interrupt/ClockInterrupt.cpp:37-117 | in every run a task stays blocked until clock interrupts have made its time full, whatever happens meanwhile, and becomes READY at the one that does |
| Scheduling.LockHandsOver | src/concurrent/Mutex.cpp:29-35 | a task that waits for the mutex hands over to a READY task if and only if there is another one |
| Scheduling.SleepHandsOver | src/interrupt/SystemCall.cpp:273-278 | the same for a task that goes to sleep |
| Scheduling.AloneQueuesTwice | src/concurrent/Mutex.cpp:29-35 | if no other task is READY, the blocked one goes on running and queues itself again |
| TaskMachine.AloneReached | src/concurrent/Mutex.cpp:29-35 | a run that ends in such a state: the holder of the mutex sleeps, and the only other task asks for the mutex |
| Kernels.Kernel.Schedule | src/task/TaskManager.cpp:55-86 | the loop over the table makes the choice of `Scheduling.Schedule` |
| Kernels.Kernel.LockPass | src/concurrent/Mutex.cpp:26-40 | from the test to the end of the call or to the switch to another task, as `Scheduling.Lock` says; after a free mutex has been taken the same task runs and nothing else has changed |
| Kernels.Kernel.Unlock | src/concurrent/Mutex.cpp:42-56 | the walk over the waiters does what `Scheduling.Unlock` says |
| Kernels.Kernel.PutToSleep | src/interrupt/ClockInterrupt.cpp:67-117 | the insertion by judgement puts the task where `Scheduling.PutToSleep` says |
| Kernels.Kernel.WakeupSleptEnoughTasks | src/interrupt/ClockInterrupt.cpp:37-49 | the loop over the queue does what `Scheduling.Wakeup` says |
| Kernels.Kernel.Handler | src/interrupt/ClockInterrupt.cpp:51-64 | a clock interrupt does what `Scheduling.Tick` says |
| Kernels.Kernel.SleepCall | src/interrupt/SystemCall.cpp:273-278 | the system call does what `Scheduling.Sleep` says |
| Kernels.Kernel.Create | src/task/TaskManager.cpp:117-147 | a new task gets the first free place of the table, none if the table is full; its status and wakeup moment are those that its page held before |
| Kernels.Kernel.RunningUnlinked | src/task/Task.h:89-96 | in a run the node of the running task is in no queue, as blocking needs it |
| Strings.FlaggedMeansZeroByte | src/lib/string.cpp:75 | for every 64-bit word the test is true exactly if some byte of it is zero |
| Strings.WordFlagged | src/lib/string.cpp:74-75 | the same for eight bytes read as a little-endian word |
| Strings.Strlen | src/lib/string.cpp:48-87 | the number that the byte-by-byte scan gives, for every string and every alignment |

## Left out

- FreeMemory.FreeMemoryManager.Free: a range that begins exactly where a shorter free block begins is excluded; the size computed in `src/memory/FreeMemoryManager.cpp:118-127` wraps around then, against the source's own remark at line 88.
- FreeMemory.FreeMemoryManager.FreeRange: `free` with its flag `dontAdjustPage` is split in two methods, since it and `adjustPageLinkNodes` call each other.
- FreeMemory.FreeMemoryManager.DropBlock: `alloc` moves the last node before it is given back, `free` afterwards; both are modelled in the order of `free`.
- FreeMemory.FreeMemoryManager.Join: this and all other operations of the manager are proved with the two link writes restored; for the code as written `AddNode`, `RemoveNode`, `AddBlock` and `Unregister` say exactly when the trees survive one step, and nothing is claimed after a tree is broken.
- FreeMemory.FreeMemoryManager.Alloc: 0 means failure, and also the block at address 0 taken whole; usable memory begins at 15 MB, so the two do not meet in the kernel.
- KernelHeap.KernelMemoryAllocator.Malloc: an allocation that fails stops the kernel in the original; here it returns null.
- KernelHeap.KernelMemoryAllocator.Free: the field `count` of a small page is only counted up, as in the original, and nothing is claimed about it.
- Kernels.Kernel.LockPass: the loop in `lock` is cut at the switch to another task; the machine in `TaskMachine` runs the passes of all tasks in any order.
- Kernels.Kernel.Create: stack, page table and name of a new task are not modelled.
- KernelHeap.KernelMemoryAllocator.MallocLarge: sizes for which the 64-bit sum of `src/memory/KernelMemoryAllocator.cpp:44-48` wraps around are excluded; too few pages are asked for then, as `PagesSuffice` says.
- Paging.AddressSpace.MapPage: after result 2 the contract gives memory and free frames, but of the mappings only those under other root entries; the original has freed tables under this one that may hold other mappings.
- RedBlackMap.Map.GetData: the original returns a null reference for an absent key; here the result is an option.
- RedBlackMap.Map.SetData: allocation failure and a null reference as data are not modelled.
- Keys of the map are integers here; the original takes any type with a total order.
- `Map::operator[]` passes a null reference for a missing key.
- `LinkedList::insert` does not insert at its index; `removeLast` dereferences null on an empty list; neither is modelled.
- `LinkedList` keeps `length` apart from the chain, since `clear` does not reset it; `Get` asks for a correct `length`.
- `offsetof` arithmetic from a queue node to its task is a field of the node that names the task.
- `allocWhitePage` with more than one page fills only the first one; only one page is modelled.
- Paging.AddressSpace.AllocPage: the free frames of an address space are a set; `PageFrames` shows that taking and giving back one page of the memory manager acts on its free frames like that, but not when the manager has none left, since it takes pages for its own nodes too.
- Paging.NewTaskFits: that the frame named by the stale root entry is still all zeros is assumed; the loader never writes to it. Caching of translations is not modelled.
- `walkPageTables`, the counters and messages of `processArds`, and the rest of `string.cpp`.
- Boot code, interrupt entry and exit, the switch of stacks and page tables, devices, console and logging.
- Links and headers of the heap are kept in two maps by address; that they do not overlap in memory is what `Arena.LinksOutsideHeaders`, `Arena.LinksApart`, `Arena.LinksSafe` and `Arena.HeadersSafe` prove.
