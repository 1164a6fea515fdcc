# Boundary-tag allocator, labyrinth and pstree, modelled in Dafny

This project models three small C programs and proves properties about the models.

- **mymalloc.** A first-fit allocator over a singly linked free list. It
  uses boundary tags: every block carries its size, with the low bit as the
  in-use flag, in its first and its last word. `mymalloc` splits a block when
  the rest is at least `MIN_BLOCK` bytes. `myfree` pushes the freed block at
  the head of the list and merges it with the block just past it when that
  block is free.
- **labyrinth.** A game map of at most 100 by 100 cells. Players are digits.
  There are row-major searches for a player and for the first empty cell, a
  one-step move that edits the map in place, and a depth-first flood fill
  that decides whether all empty cells are connected.
- **pstree.** A direct-mapped table of (pid, ppid) pairs. From it, the node
  list and the parent/child links are built, and the root is searched for.
  The module also has the comparison functions and the digit test.

Module layout:

- `boundary_tags.dfy` (module `BoundaryTags`) holds the tag macros, the
  block and heap invariant, and the effect of each store.
- `mymalloc.dfy` (module `MyMalloc`) holds the allocator as state-transition
  functions `MallocStep` and `FreeStep` with their properties. It also holds
  the class `Allocator`. Its methods perform the source's stores, in the
  source's order, on an `array<int>` of 8-byte words, and each method is
  proved equal to the transition function.
- `trivial_client.dfy` (module `MyMallocClient`) re-states the trivial test
  of the allocator's test suite as a verified method.
- `size_overflow.dfy` (module `SizeOverflow`) models the size computation of
  `mymalloc` with `size_t` wrap-around (see Findings).
- `labyrinth.dfy` (module `Labyrinth`): the class `Maze` over an `array2<char>`.
- `pstree.dfy` (module `PsTree`): the classes `ProcTable` and `Node`, the
  build loop and the root search.

Heap representation. Heap addresses are word offsets. Word 0 is the null
address. Blocks tile the words `[1, |m| - 1)`, and the last word is an
allocated sentinel, so the forward peek of `myfree` stays inside the arena.
Sizes and tags are in bytes, as in the source: a tag is 8 times the number of
words, plus the flag. The ghost fields `blocks` and `freeList` give the
abstract picture that the words represent.

## Model

| member | source | states |
|---|---|---|
| BoundaryTags.Align8 | mymalloc/mymalloc.c:3 | ALIGN8 gives the least multiple of 8 that is at least x |
| BoundaryTags.MarkFree | mymalloc/mymalloc.c:6 | the flag is cleared: the result is untagged, equals tag - 1 for a tagged word and the tag itself otherwise |
| BoundaryTags.MarkAlloc | mymalloc/mymalloc.c:5 | the flag is set and the untagged size is kept |
| BoundaryTags.IsAllocated | mymalloc/mymalloc.c:4 | the in-use test of a tag is its low bit; MarkAlloc makes it true and MarkFree false, as their contracts state |
| BoundaryTags.RequestTotal | mymalloc/mymalloc.c:25 | the block for a request is a multiple of 8 bytes, from size + 16 to below size + 24 bytes, and at least MIN_BLOCK for a non-empty request |
| BoundaryTags.RequestWords | mymalloc/mymalloc.c:25 | the block of a non-empty request is a whole number of words, at least 3 |
| BoundaryTags.PayloadIsolated | mymalloc/mymalloc.c:10-15 | in a valid heap a live payload word is no header, footer, free-list link, sentinel or null word |
| BoundaryTags.PayloadsDisjoint | mymalloc/mymalloc.c:80 | two blocks in use have different pointers and disjoint payloads |
| MyMalloc.FirstFit | mymalloc/mymalloc.c:33-86 | the position of the first free-list node that fits: every earlier node is too small; the list length when none fits |
| MyMalloc.IndexFrom | mymalloc/mymalloc.c:109-114 | the position of the first free-list node equal to x, or the list length when there is none |
| MyMalloc.NodesNonNull | mymalloc/mymalloc.c:33 | no node of a valid free list is the null address, so the scan stops exactly at the list's end |
| MyMalloc.Fits | mymalloc/mymalloc.c:35-36 | the fit test `curr_sz >= total` on the untagged size of a node's header; FirstFit and MallocStepFirstFit state what it selects |
| MyMalloc.MallocStep | mymalloc/mymalloc.c:17-89 | mymalloc as a transition from a heap to a heap and a pointer: NULL for size 0 or no fit, otherwise the split or the whole-block case on the first fit; its meaning is stated by MallocStepValid, MallocStepFirstFit, MallocStepSplit, MallocStepWhole, MallocStepBlock, MallocKeepsPayloads and MallocFrame |
| MyMalloc.FirstPayloadWord | mymalloc/mymalloc.c:80 | the word a live pointer points at is a payload word of its block |
| MyMalloc.MallocStepValid | mymalloc/mymalloc.c:17-89 | mymalloc keeps the heap invariant: the blocks tile the arena, both tags agree, and the free list holds exactly the free blocks |
| MyMalloc.MallocStepFirstFit | mymalloc/mymalloc.c:19-88 | NULL exactly for size 0 or when no node fits, and then nothing changes; otherwise the result is the word after the header of the first node that fits |
| MyMalloc.MallocStepSplit | mymalloc/mymalloc.c:40-61 | split case: both tags of the chosen block become MARK_ALLOC(total), the rest gets curr_sz - total in both tags, and the rest takes the chosen node's place in the list |
| MyMalloc.MallocStepWhole | mymalloc/mymalloc.c:63-77 | no-split case: both tags become MARK_ALLOC(curr_sz) and the node leaves the list, the others keeping their order |
| MyMalloc.MallocStepBlock | mymalloc/mymalloc.c:38-80 | the handed-out block was free and is now in use; it is the only block that changes to in use, and it holds at least `size` payload bytes |
| MyMalloc.MallocKeepsPayloads | mymalloc/mymalloc.c:42-77 | mymalloc changes no word of any live payload |
| MyMalloc.MallocFrame | mymalloc/mymalloc.c:42-77 | mymalloc writes only inside the chosen block and the link word of the previous node |
| MyMalloc.MallocSplitOutcome | mymalloc/mymalloc.c:40-61 | the split case is the split's tag and link stores on the chosen block followed by the store into the previous node's link word (or into the head when there is none), with the rest replacing the node in the list |
| MyMalloc.MallocWholeOutcome | mymalloc/mymalloc.c:63-77 | the no-split case is the two tag stores followed by linking the previous node (or the head) to the node's successor, which is the word after the header, the node leaving the list |
| MyMalloc.AbsorbFacts | mymalloc/mymalloc.c:106-114 | the free block after the freed one is found by the search loop at a position past the head |
| MyMalloc.Absorb | mymalloc/mymalloc.c:122-124 | after the merge, both tags of the freed block hold the sum of the two sizes |
| MyMalloc.AbsorbValid | mymalloc/mymalloc.c:106-125 | the forward merge keeps the heap invariant |
| MyMalloc.AbsorbShape | mymalloc/mymalloc.c:106-125 | the merge sums the two sizes into both tags, the list loses exactly the absorbed block, the head stays, and no block changes between free and in use |
| MyMalloc.AbsorbFrame | mymalloc/mymalloc.c:115-124 | the merge writes only inside the two merged blocks and the link word of the absorbed node's predecessor |
| MyMalloc.AbsorbKeeps | mymalloc/mymalloc.c:115-124 | the merge changes no word of any live payload |
| MyMalloc.Release | mymalloc/mymalloc.c:97-104 | the release half of myfree: both tags untagged, the block pushed at the head of the list and marked free; its meaning is stated by ReleaseShape and ReleaseKeeps |
| MyMalloc.FreeStep | mymalloc/mymalloc.c:91-128 | myfree as a transition: nothing for NULL, otherwise the release, followed by the forward merge when the next header is free; its meaning is stated by FreeStepCases, FreeStepValid, FreeStepPushed, FreeStepMerged, FreeStepUsed and FreeKeepsPayloads |
| MyMalloc.FreeStepValid | mymalloc/mymalloc.c:91-128 | myfree keeps the heap invariant, and myfree(NULL) changes nothing |
| MyMalloc.FreeNextFacts | mymalloc/mymalloc.c:106-107 | `block + MARK_FREE(size)` is the end of the freed block; when its header is free it starts the next block, which is on the free list |
| MyMalloc.FreeStepPushed | mymalloc/mymalloc.c:97-104 | next block in use: the freed block gets its own size untagged in both tags and is pushed in front of the unchanged list |
| MyMalloc.FreeStepMerged | mymalloc/mymalloc.c:103-121 | next block free: the freed block heads the list, which has lost the next block |
| MyMalloc.FreeStepCases | mymalloc/mymalloc.c:97-125 | myfree of a live pointer is the release alone when the word after the block is an allocated tag, and the release followed by the forward merge when it is a free one |
| MyMalloc.FreeStepMergedTags | mymalloc/mymalloc.c:122-124 | next block free: both tags of the merged block hold the sum of the two sizes |
| MyMalloc.FreeStepUsed | mymalloc/mymalloc.c:91-128 | myfree takes exactly the freed block out of the blocks in use |
| MyMalloc.ReleaseShape | mymalloc/mymalloc.c:97-104 | the release untags the block in both tags, pushes it at the head and takes it out of the blocks in use |
| MyMalloc.ReleaseKeeps | mymalloc/mymalloc.c:97-104 | the release changes no other live payload, and the other payloads stay live |
| MyMalloc.FreeKeepsPayloads | mymalloc/mymalloc.c:91-128 | myfree changes no word of a live payload other than those of the freed block |
| MyMalloc.InitValid | mymalloc/mymalloc.c:15 | one free block spanning the arena, with a null link, is a valid heap |
| MyMalloc.Allocator.Init | mymalloc/mymalloc.c:15 | a fresh arena whose free list is one block covering it |
| MyMalloc.Allocator.Malloc | mymalloc/mymalloc.c:17-89 | the scan and the stores on the array give exactly MallocStep's state and pointer, and keep the invariant |
| MyMalloc.Allocator.Allocate | mymalloc/mymalloc.c:38-80 | handing out the first fitting node, with `prev` behind it, gives MallocStep's state |
| MyMalloc.Allocator.WriteTag | mymalloc/mymalloc.c:43-51 | one store of a size or link word: that word of the array takes the value and no other word changes |
| MyMalloc.Allocator.SplitChosen | mymalloc/mymalloc.c:42-61 | the split-case stores on the array, in the source's order, and the head update when there is no prev |
| MyMalloc.Allocator.TakeWhole | mymalloc/mymalloc.c:66-77 | the no-split stores on the array, and the head update when there is no prev |
| MyMalloc.Allocator.SplitAt | mymalloc/mymalloc.c:40-61 | the split case on the whole state: the stores, then the block cut in two, the rest taking the node's place in the list |
| MyMalloc.Allocator.TakeWholeAt | mymalloc/mymalloc.c:63-77 | the no-split case on the whole state: the stores, then the block in use and the node out of the list |
| MyMalloc.Allocator.Free | mymalloc/mymalloc.c:91-128 | the stores of myfree give exactly FreeStep's state and keep the invariant |
| MyMalloc.Allocator.ReleaseBlock | mymalloc/mymalloc.c:97-106 | the untag-and-push stores give Release's state, and the computed next address is the block's end |
| MyMalloc.Allocator.ClearTags | mymalloc/mymalloc.c:97-100 | both tags of the freed block lose the flag, header first |
| MyMalloc.Allocator.AbsorbNext | mymalloc/mymalloc.c:106-125 | the search, unlink and size stores give Absorb's state |
| MyMalloc.Allocator.Unlink | mymalloc/mymalloc.c:109-120 | the predecessor of `next` in the list takes next's successor into its link word, and no other word changes |
| MyMalloc.Allocator.MergeSizes | mymalloc/mymalloc.c:122-124 | both tags of the freed block take the sum of the two free sizes |
| MyMalloc.Allocator.FindPrev | mymalloc/mymalloc.c:109-114 | the loop ends at the first node equal to `next`, or runs off the end, with q the node before it or null |
| MyMalloc.Allocator.Store | mymalloc/tests/tests-trivial.c:12-16 | a store into a live payload word changes only that word and keeps the heap valid |
| MyMallocClient.MallocFour | mymalloc/tests/tests-trivial.c:10 | mymalloc(4) on a head node of at least 48 bytes returns the word after that node's header, a fresh live block, and keeps the other payloads |
| MyMallocClient.MallocFourHead | mymalloc/tests/tests-trivial.c:10 | mymalloc(4) on such a head node splits it, and the rest, 24 bytes smaller, heads the free list |
| MyMallocClient.MallocFourOn | mymalloc/tests/tests-trivial.c:10 | MallocFour's properties for the allocator object after `mymalloc(4)` |
| MyMallocClient.MallocAndStore | mymalloc/tests/tests-trivial.c:10-16 | allocate 4 bytes and store v: the pointer is fresh and holds v, and the other payloads are kept |
| MyMallocClient.Trivial | mymalloc/tests/tests-trivial.c:8-23 | both pointers are non-null and distinct, the values read back are 1024 and 2048 with 1024 * 2 == 2048, and both frees are legal |
| SizeOverflow.AddSizeT | mymalloc/mymalloc.c:25 | size_t addition: below 2^64, and either the sum or the sum minus 2^64 |
| SizeOverflow.RequestTotalAsWritten | mymalloc/mymalloc.c:25 | the size_t computation of the block size stays below 2^64 and is a multiple of 8 |
| SizeOverflow.AsWrittenAgrees | mymalloc/mymalloc.c:25 | the wrapping computation equals the intended one exactly when size <= SIZE_MAX - 23 |
| SizeOverflow.AsWrittenWraps | mymalloc/mymalloc.c:25 | for the 23 largest sizes the wrapped total is at most 16, below MIN_BLOCK |
| SizeOverflow.SizeMaxTotal | mymalloc/mymalloc.c:25 | mymalloc(SIZE_MAX) computes a total of 16 bytes |
| SizeOverflow.SizeMaxFits | mymalloc/mymalloc.c:33-36 | the first free node passes the fit test for the wrapped total, while no node of an arena that fits in the address space fits the intended total |
| Labyrinth.ValidPlayerDigits | labyrinth/labyrinth.c:182-188 | a player id is exactly one of the ten digits |
| Labyrinth.Step | labyrinth/labyrinth.c:321-341 | the cell one step away is a 4-neighbour in the stated direction |
| Labyrinth.IsValidPlayer | labyrinth/labyrinth.c:182-188 | a player id is a digit character; ValidPlayerDigits states that these are exactly "0123456789" |
| Labyrinth.Maze.IsEmptySpace | labyrinth/labyrinth.c:285-295 | a cell outside the map is never empty; inside, a cell is empty when it holds '.' or a player |
| Labyrinth.Maze.constructor | labyrinth/labyrinth.h:5-10 | a map of rows by cols cells inside the 100 by 100 array |
| Labyrinth.Maze.FindPlayer | labyrinth/labyrinth.c:238-253 | (-1, -1) exactly when no cell holds the id; otherwise the last cell in row-major order holding it |
| Labyrinth.Maze.FindFirstEmptySpace | labyrinth/labyrinth.c:262-278 | (-1, -1) exactly when no cell is empty; otherwise the first empty cell in row-major order |
| Labyrinth.Maze.MovePlayer | labyrinth/labyrinth.c:303-357 | the start is the player's last cell, or the first empty cell where it is placed; success exactly when a start exists, the direction is known and the target is empty; start becomes '.', target the id, and nothing else changes |
| Labyrinth.Maze.Dfs | labyrinth/labyrinth.c:394-409 | marks only empty cells reachable from the start, marks the start when it is empty, clears no mark, and keeps the marks closed under empty neighbours |
| Labyrinth.Maze.Visit | labyrinth/labyrinth.c:405-408 | one recursive call: what it marks is reachable from the caller's cell, and the neighbour is marked when empty |
| Labyrinth.Maze.IsConnected | labyrinth/labyrinth.c:411-435 | true exactly when every empty cell is reachable from every other through 4-adjacent empty cells |
| Labyrinth.Maze.FirstUnvisited | labyrinth/labyrinth.c:424-433 | (-1, -1) exactly when every empty cell is marked; otherwise an empty unmarked cell |
| Labyrinth.Maze.ReachBack | labyrinth/labyrinth.c:404-408 | reachability is symmetric, since the four moves come in opposite pairs |
| Labyrinth.Maze.ReachJoin | labyrinth/labyrinth.c:404-408 | reachability is transitive |
| Labyrinth.Maze.ClosedPath | labyrinth/labyrinth.c:394-409 | a path that starts inside a closed set of marks ends inside it |
| Labyrinth.Maze.Unreached | labyrinth/labyrinth.c:428-430 | an empty cell that the fill from the first empty cell missed shows the map is not connected |
| Labyrinth.Maze.AllReached | labyrinth/labyrinth.c:434 | when every empty cell was marked from the first one, all empty cells are connected |
| Labyrinth.Maze.CloseUnmark | labyrinth/labyrinth.c:405-408 | once its four neighbours are visited, a cell's empty neighbours are all marked |
| Labyrinth.Maze.ExtendReach | labyrinth/labyrinth.c:405-408 | cells reached through a neighbour are reachable from the cell itself |
| Labyrinth.Maze.MarkOne | labyrinth/labyrinth.c:402 | setting one flag adds exactly that cell to the marks |
| PsTree.HashFunction | pstree/pstree.c:27-30 | C's truncating remainder: in [0, HASH_SIZE) for a non-negative key, in (-HASH_SIZE, 0] for a negative one, and congruent to the key |
| PsTree.HashCollides | pstree/pstree.c:27-37 | pids a multiple of HASH_SIZE apart share a slot, so the later overwrites the earlier |
| PsTree.CompareInt | pstree/pstree.c:372-382 | -1, 0 or 1 exactly when a < b, a == b or a > b |
| PsTree.CompareIntOrder | pstree/pstree.c:372-382 | the comparison is antisymmetric and transitive |
| PsTree.CompareNodes | pstree/pstree.c:59-64 | the result stays within int; its sign is given by CompareNodesAgrees |
| PsTree.CompareNodesAgrees | pstree/pstree.c:59-64 | for non-negative pids the subtraction does not overflow and has the sign compareInt gives |
| PsTree.IsDigit | pstree/pstree.c:335 | the digit test isNumber applies to each character: '0' through '9' |
| PsTree.IsNumber | pstree/pstree.c:331-342 | true exactly when every character is a digit |
| PsTree.ProcTable.constructor | pstree/pstree.c:13 | HASH_SIZE zero slots |
| PsTree.ProcTable.InsertHash | pstree/pstree.c:32-37 | slot hashFunction(pid) becomes (pid, ppid) and nothing else changes |
| PsTree.Node.constructor | pstree/pstree.c:15-25 | a node with the pid and no children |
| PsTree.Node.AddChild | pstree/pstree.c:40-43 | the child is appended after the existing children |
| PsTree.BuildPids | pstree/pstree.c:194-213 | the pids the build appends to the node list, slot by slot; BuildPidsBound, BuildPidsCover and BuildPidsDistinct state its size, contents and distinctness |
| PsTree.BuildStep | pstree/pstree.c:197-211 | one used slot appends its ppid, then its pid, each only when the list before the slot lacks it |
| PsTree.BuildStepExtends | pstree/pstree.c:197-211 | both lookups see the list as before the slot, so the list is only extended, only by pids it lacked, and then holds both the pid and the ppid |
| PsTree.BuildPidsBound | pstree/pstree.c:194-213 | the build creates at most two nodes per slot |
| PsTree.BuildPidsCover | pstree/pstree.c:194-213 | the node pids are exactly the pids and ppids of the used slots |
| PsTree.BuildPidsDistinct | pstree/pstree.c:197-212 | when no used slot is its own parent, no pid gets two nodes |
| PsTree.SlotEdgesStep | pstree/pstree.c:194-213 | one more slot adds its own (ppid, pid) pair when it is used, and no other pair |
| PsTree.FindNode | pstree/pstree.c:46-56 | null exactly when no node has the pid; otherwise the first node with it |
| PsTree.BuildTree | pstree/pstree.c:188-214 | the node list holds the pids BuildPids gives, the links are exactly the (ppid, pid) pairs of the used slots, and every child is a node of the list |
| PsTree.AddSlot | pstree/pstree.c:194-213 | one used slot: the pids of BuildStep are appended, the links gain exactly that slot's pair, and every child stays a node of the list |
| PsTree.PlaceBoth | pstree/pstree.c:202-211 | both creation steps after both lookups: the pids of BuildStep are appended and the links are unchanged |
| PsTree.Place | pstree/pstree.c:202-211 | a found node is kept, a missing one is appended fresh with no children, and the links are unchanged |
| PsTree.Link | pstree/pstree.c:212 | addChild adds exactly the pair of the parent's and the child's pids to the links |
| PsTree.FindRoot | pstree/pstree.c:216-238 | null exactly when every node is some node's child; otherwise the first node that is no node's child |
| PsTree.NoSlotNoParent | pstree/pstree.c:194-238 | after the build, a node whose pid is no used slot's pid is nobody's child, so the root search succeeds |
| PsTree.SlotIsChild | pstree/pstree.c:194-238 | the converse, when no used slot is its own parent: after the build a node whose pid is a used slot's pid is some node's child, by pointer |
| PsTree.SlotLink | pstree/pstree.c:212 | the pair of a used slot with pid x is a link from a node of the list to a child with pid x |
| PsTree.SamePidSameNode | pstree/pstree.c:197-211 | when no used slot is its own parent, two entries of the built list with the same pid are the same entry |
| PsTree.BuildAndFindRoot | pstree/pstree.c:188-238 | build then root search: a null root means every node has a used slot's pid; when no used slot is its own parent, the root is the first node whose pid is no used slot's pid, and null exactly when there is none |
| PsTree.InsertEvictedParents | pstree/pstree.c:32-37 | on a fresh table, inserting process 1000 + s and then process s, whose parent it is, for each s from 1 to 999 leaves exactly the EvictedParents table, the second insert overwriting the first |
| PsTree.EvictedParentsCount | pstree/pstree.c:188-213 | the first n slots of that table create 2 * (n - 1) nodes |
| PsTree.EvictedFresh | pstree/pstree.c:197-211 | before slot m of that table neither process m nor its parent 1000 + m has a node, so the slot creates both |
| PsTree.NodesOverflow | pstree/pstree.c:188-213 | that table makes the build create 1998 nodes, more than MAX_NODES and within NODES_CAPACITY |

## Left out

- The spin lock around the free list (`big_lock`) is not modelled. The model is sequential, so each call is atomic.
- `vmalloc`/`vmfree`, the test kit and the multi-threaded `T_malloc` test are not part of this model.
- The source never puts an arena on the free list. `Allocator.Init` supplies one, an arena of `arenaWords` 8-byte words.
- Integer widths: heap words are unbounded `int`s, and only the size computation's `size_t` wrap-around is modelled (in `SizeOverflow`). Pids and `node_count` are unbounded; 32-bit `int` overflow is not modelled.
- The `q == NULL` branch of myfree's unlink (mymalloc/mymalloc.c:120) cannot be taken: the freed block heads the list, and it is not the block after itself. The model gives it no separate member.
- mymalloc and myfree are split into helper methods (`Allocate`, `SplitChosen`, `TakeWhole`, `ReleaseBlock`, `AbsorbNext`, `FindPrev`). The stores and their order are the source's.
- labyrinth's `loadMap`, `saveMap`, `main` and the command-line handling are file and terminal I/O. A `Maze` is built from an already-loaded grid.
- `direction` is compared with `strcmp`. It is a Dafny string, so the C terminator is not modelled.
- The stack of dfs is modelled by the ghost set `stack`. The four recursive calls go through the helper `Visit`. isConnected's final scan is the helper `FirstUnvisited`.
- pstree's `/proc` traversal (`traversePROC`, `getPPID`, `getName`), `printTree`, the `qsort` it uses, the option parsing and the final `free` loop are I/O or printing, and are not modelled. The table the build reads is a parameter.
- `Node.children` is a `seq<Node>` holding the first `child_count` entries of the fixed array; the NULL writes of `createNode` are not modelled. `Node.AddChild` requires a free entry, as the array bound demands.
- The node list is an array with the capacity of `NODES_CAPACITY`, the corrected bound of the second finding. `BuildTree` is one loop; each iteration is the helper `AddSlot`, with its steps `Place`, `PlaceBoth` and `Link`.
- CompareNodes: requires that the subtraction stays within a 32-bit int, rather than modelling the overflow, which C leaves undefined; CompareNodesAgrees shows that this holds for all non-negative pids.

## Findings

| source | as written | input that shows it | evidently intended | confidence | as-written member | corrected member |
|---|---|---|---|---|---|---|
| mymalloc/mymalloc.c:25 | `total = ALIGN8(size) + 2 * sizeof(size_t)` wraps around in `size_t` for the 23 largest sizes | `mymalloc(SIZE_MAX)` computes total 16, which the first free node passes: mymalloc hands out a block far smaller than requested (16 bytes when the node is split, the whole 24- or 32-byte node otherwise) instead of returning NULL | the block should hold `size` bytes, or the request should fail | not executed | SizeOverflow.RequestTotalAsWritten (SizeOverflow.SizeMaxTotal, SizeOverflow.SizeMaxFits) | BoundaryTags.RequestTotal |
| pstree/pstree.c:188-213 | `Node *nodes[MAX_NODES]` is filled with `nodes[node_count++]` and the count is never checked | a table whose slots 1..999 hold processes whose parents' own slots they overwrote (`PsTree.EvictedParents`, produced by the inserts of `PsTree.InsertEvictedParents`) creates 1998 nodes | room for the up to 2 nodes each of the HASH_SIZE slots can create | not executed | PsTree.NodesOverflow (PsTree.EvictedParentsCount) | PsTree.BuildTree |
