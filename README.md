# Assembly-lab C exercises, modelled in Dafny

This project models the C reference code of a series of computer-architecture
lab exercises, in which students rewrite C routines in ARM or x86 assembly.
The Dafny modules describe what the C versions do. The proofs state the
properties those routines promise.

- **A\* grid solver** (`path_finding.c`). The modules are `Grid`, `Heuristics`,
  `Neighbors`, `PriorityQueue`, `VisitedCache` and `AStar`.
  - The map has 8 x 10 tiles with 16-bit coordinates.
  - Position keys are 32-bit.
  - There are four distance heuristics and three neighbour generators.
  - The priority queue is a sorted array. The visited cache is an ascending
    array.
  - The search step and the search driver run on top of these. Nodes live in
    an arena of records that point back to their predecessor.
  - The proofs show the following:
    - A found node's chain of predecessors is a legal path from the player to
      the goal, one tile per step.
    - An exhausted search means no legal path reaches the goal.
    - Neither capacity limit can be reached on an 8 x 10 map.
- **Image filters** (`image_processing.c`, module `ImageProcessing`).
  - Container allocation.
  - The 3 x 3 convolution with saturation.
  - The five-pixel cross median filter.
  - The filter driver.
  - The image comparison.
- **Binary search tree** (`binary_tree/main.c`, module `BinaryTree`).
  - Nodes are records in a heap of records, and pointers are indices.
  - Operations: allocation, recursive insertion, and preorder collection into
    a bounded buffer.
  - A value-level tree gives the meaning of the records.
  - The proofs cover the search-tree order, the in-order listing, and the lab's
    example trees.
- **LFSR pseudo-random generator** (`backtrace.c`, module `Lfsr`): the 12-bit
  Fibonacci LFSR, seeding, and the rule that picks which function to call next.
- **Leading-zero count** (`lzcnt/main.c`, module `LeadingZeros`).
- **GPIO register configuration** (`gpio_c.c`, module `Gpio`), on 32-bit
  two's-complement values.
- **LED pattern transform and printer** (`exo2.c`, module `Leds`).
- **String copy** (`exo1.c`, module `StringCopy`).
- **Dot product** (`dot_product.c`, module `DotProduct`), with 32-bit overflow
  excluded explicitly.

`wrappers.dfy` holds the `Option` datatype shared by the modules.

## Model

| member | source | states |
|---|---|---|
| Grid.Dec | asm_lab04/arm/path/path_finding.c:422-424 | `c - 1` stored in a uint16 wraps from 0 to 65535 and is otherwise the predecessor |
| Grid.Inc | asm_lab04/arm/path/path_finding.c:423-425 | `c + 1` stored in a uint16 wraps from 65535 to 0 and is otherwise the successor |
| Grid.PositionId | asm_lab04/arm/path/path_finding.c:214-218 | the key is below 2^32; its high half-word is x and its low half-word is y |
| Grid.PositionIdBitsDecode | asm_lab04/arm/path/path_finding.c:214-218 | the shift-and-or key on 32 bits splits back into x (shift right 16) and y (mask 0xFFFF) |
| Grid.PositionIdInjective | asm_lab04/arm/path/path_finding.c:214-218 | two positions share a key exactly when they are equal |
| Grid.PositionIdOrder | asm_lab04/arm/path/path_finding.c:214-218 | key order is row-major order: by x, then by y |
| Grid.LocateFromFirst | asm_lab04/arm/path/path_finding.c:327-338 | the scan returns the first matching cell in row-major order; None means no cell from that rank on matches |
| Grid.Find | asm_lab04/arm/path/path_finding.c:327-338 | find returns the first matching cell, or (0, 0) when the tile is absent; the result is always on the map |
| Grid.FindGoal | asm_lab04/arm/path/path_finding.c:341-343 | find_goal is find for the goal tile |
| Grid.FindPlayer | asm_lab04/arm/path/path_finding.c:346-348 | find_player is find for the player tile |
| Grid.FindDefaultIsAmbiguous | asm_lab04/arm/path/path_finding.c:327-338 | a map with the player at (0, 0) and a map with no player both make find return (0, 0) |
| Grid.PlaceOnMap | asm_lab04/arm/path/path_finding.c:285-288 | writes the tile at an on-map position; an off-map position leaves every cell unchanged |
| Grid.XorCancel | asm_lab04/arm/path/path_finding.c:352-356 | xor with the same tile twice cancels out, and a tile xor itself is zero |
| Grid.SwapXor | asm_lab04/arm/path/path_finding.c:352-356 | the three-xor swap exchanges two distinct tiles, clears the tile when both addresses are the same, and touches nothing else |
| Heuristics.AbsDiff | asm_lab04/arm/path/path_finding.c:44-46 | MAX - MIN is the absolute difference |
| Heuristics.DistanceSymmetric | asm_lab04/arm/path/path_finding.c:290-319 | each of the four distances is symmetric |
| Heuristics.DistanceZeroIffEqual | asm_lab04/arm/path/path_finding.c:290-319 | each distance is zero exactly on equal positions |
| Heuristics.DistanceMapExpectations | asm_lab04/arm/path/path_finding.c:267-270 | the distance-map checks hold: 0 from the target to itself; from (2, 2) to (6, 5) the distances are 1, 2, 7 and 25 |
| Heuristics.IsGoalAtGoalOnly | asm_lab04/arm/path/path_finding.c:322-324 | is_goal holds exactly at the goal, whichever distance is active |
| Heuristics.ManhattanOne | asm_lab04/arm/path/path_finding.c:317-319 | Manhattan distance 1 means exactly one orthogonal step |
| Neighbors.LegalPositionIff | asm_lab04/arm/path/path_finding.c:363-371 | legal_position is exactly "inside both bounds and not a wall" |
| Neighbors.LegalMoveIffOffered | asm_lab04/arm/path/path_finding.c:374-380 | for a player below coordinate 65535 (always true of find_player's result), legal_move accepts exactly the positions get_legal_neighbors_4 offers |
| Neighbors.InKeepLegal | asm_lab04/arm/path/path_finding.c:443-467 | a candidate is kept exactly when it is legal |
| Neighbors.KeepLegalShape | asm_lab04/arm/path/path_finding.c:443-467 | filtering never lengthens the list and never adds duplicates |
| Neighbors.CandidatesDistinct | asm_lab04/arm/path/path_finding.c:470-492 | the eight candidate positions are pairwise different |
| Neighbors.LegalNeighbors4Exact | asm_lab04/arm/path/path_finding.c:443-467 | get_legal_neighbors_4 offers a position exactly when it is legal and one orthogonal step away |
| Neighbors.LegalNeighbors8Exact | asm_lab04/arm/path/path_finding.c:470-492 | get_legal_neighbors_8 offers a position exactly when it is legal and one king move away |
| Neighbors.NeighborsSimpleExact | asm_lab04/arm/path/path_finding.c:418-440 | from an on-map position, get_neighbors_simple offers exactly the on-map orthogonal neighbours, walls included |
| Neighbors.SuccessorsExact | asm_lab04/arm/path/path_finding.c:418-492 | from an on-map position, every generator offers exactly its adjacency relation |
| Neighbors.SuccessorsOnMap | asm_lab04/arm/path/path_finding.c:418-492 | every offered position is on the map |
| Neighbors.SuccessorsBounded | asm_lab05/arm/path/path_finding.h:49 | generators return distinct positions: at most 4, or at most MAX_LEGAL_NEIGHBORS = 8 for the 8-neighbour one |
| Neighbors.WrapAtZeroRejected | asm_lab04/arm/path/path_finding.c:443-467 | stepping left or up from row or column 0 wraps to 65535, and that candidate is never offered |
| Neighbors.RightWrapsAtEdge | asm_lab04/arm/path/path_finding.c:443-467 | from the off-map column 65535, the right candidate wraps to column 0 and is offered although it is not adjacent |
| Neighbors.MovePlayer | asm_lab04/arm/path/path_finding.c:382-388 | a legal move puts the player on the new cell and empties the old one; an illegal move changes nothing |
| PriorityQueue.InsertAt | asm_lab04/arm/path/path_finding.c:181-198 | the slot where the shifting loop stops is within the queue |
| PriorityQueue.InsertAtSplits | asm_lab04/arm/path/path_finding.c:181-198 | in a sorted queue, the entries before the slot have priority at least the new one and the entries after it have lower priority |
| PriorityQueue.InsertAtIs | asm_lab04/arm/path/path_finding.c:181-198 | the stopping slot is characterised by the two sides of that split |
| PriorityQueue.EnqueuedSorted | asm_lab04/arm/path/path_finding.c:181-198 | enqueue keeps priorities non-increasing from front to back |
| PriorityQueue.EnqueuedContents | asm_lab04/arm/path/path_finding.c:181-198 | enqueue adds exactly the new entry; the multiset and the members are kept |
| PriorityQueue.EnqueuedTiesLifo | asm_lab04/arm/path/path_finding.c:181-198 | the new entry sits after every entry of equal priority, so ties come out newest first |
| PriorityQueue.DequeuedIsMinimum | asm_lab04/arm/path/path_finding.c:201-208 | dequeue yields None exactly on an empty queue; otherwise it yields a minimum-priority node, removes only that entry, and keeps the rest sorted |
| PriorityQueue.Pairs | asm_lab04/arm/path/path_finding.c:181-198 | the two parallel arrays are read as a sequence of (node, priority) entries |
| PriorityQueue.ShiftInsert | asm_lab04/arm/path/path_finding.c:189-197 | the arrays after the shifting loop hold exactly the enqueued sequence |
| PriorityQueue.Queue.constructor | asm_lab04/arm/path/path_finding.c:582 | a calloc'ed queue is empty |
| PriorityQueue.Queue.Clear | asm_lab04/arm/path/path_finding.c:176-178 | clear_queue leaves no entries |
| PriorityQueue.Queue.Enqueue | asm_lab04/arm/path/path_finding.c:181-198 | succeeds exactly when the queue is below capacity; the new entries are then the enqueued sequence, and otherwise nothing changes |
| PriorityQueue.Queue.MakeRoom | asm_lab04/arm/path/path_finding.c:189-194 | the loop shifts up every entry of lower priority and returns the freed slot |
| PriorityQueue.Queue.Dequeue | asm_lab04/arm/path/path_finding.c:201-208 | the node returned and the entries left are those of the dequeue specification |
| VisitedCache.Slot | asm_lab04/arm/path/path_finding.c:126-154 | the insertion slot is within the cache |
| VisitedCache.SlotSplits | asm_lab04/arm/path/path_finding.c:126-154 | in an ascending cache, the ids before the slot are at most the new id and the ids after it are larger |
| VisitedCache.SlotIs | asm_lab04/arm/path/path_finding.c:126-154 | the stopping slot is characterised by that split |
| VisitedCache.InsertedAscending | asm_lab04/arm/path/path_finding.c:126-154 | inserting an absent id keeps the ids strictly ascending |
| VisitedCache.InsertedContents | asm_lab04/arm/path/path_finding.c:126-154 | a miss adds exactly the new entry and its id |
| VisitedCache.AscendingCount | asm_lab04/arm/path/path_finding.c:126-154 | in an ascending cache, the entry count equals the number of distinct ids |
| VisitedCache.LookedSpec | asm_lab04/arm/path/path_finding.c:126-154 | a hit happens exactly when the id is present and changes nothing; a full cache is reported; a miss adds the id; the ids stay ascending |
| VisitedCache.Cache.constructor | asm_lab04/arm/path/path_finding.c:581 | a calloc'ed cache is empty |
| VisitedCache.Cache.Clear | asm_lab04/arm/path/path_finding.c:157-162 | clear_cache leaves no entries |
| VisitedCache.Cache.Lookup | asm_lab04/arm/path/path_finding.c:126-154 | the verdict and the new entries are those of the lookup specification for the position's key |
| VisitedCache.Cache.MakeRoom | asm_lab04/arm/path/path_finding.c:144-148 | the loop shifts up every entry with a larger id and returns the freed slot |
| VisitedCache.ShiftInsert | asm_lab04/arm/path/path_finding.c:144-151 | the array after the shifting loop holds exactly the inserted sequence |
| AStar.Visit | asm_lab04/arm/path/path_finding.c:550-565 | visiting a neighbour never shrinks the node arena |
| AStar.VisitCases | asm_lab04/arm/path/path_finding.c:550-565 | a hit changes nothing; a full cache or queue is reported; a miss appends the child (steps + 1, prev = parent) and enqueues it with priority distance + steps |
| AStar.VisitMiss | asm_lab04/arm/path/path_finding.c:550-565 | on a miss with room, the state grows by the child in the arena, its key in the cache and its entry in the queue |
| AStar.VisitNeighbor | asm_lab04/arm/path/path_finding.c:550-565 | one loop iteration on the queue and cache objects matches the visit specification |
| AStar.ExpandNeighbors | asm_lab04/arm/path/path_finding.c:550-565 | the loop over all neighbours matches the expansion specification |
| AStar.ExpandAllUnfold | asm_lab04/arm/path/path_finding.c:550-565 | the expansion visits the neighbours in order and stops at the first capacity failure |
| AStar.Step | asm_lab04/arm/path/path_finding.c:535-572 | a_star_search_step on the queue and cache objects matches the step specification |
| AStar.StepKeeps | asm_lab04/arm/path/path_finding.c:535-572 | a step reports exhaustion exactly on an empty queue, returns only nodes at the goal, and otherwise keeps the search invariant |
| AStar.SeededInv | asm_lab04/arm/path/path_finding.c:584-590 | the start node alone in the queue and the cache satisfies the search invariant |
| AStar.Seed | asm_lab04/arm/path/path_finding.c:581-590 | fresh structures hold the start node, at the player, with priority distance-to-goal; the goal is find_goal's result |
| AStar.SeedQueue | asm_lab04/arm/path/path_finding.c:589 | the queue holds only the start entry |
| AStar.SeedCache | asm_lab04/arm/path/path_finding.c:590 | the cache holds only the start position's key |
| AStar.AppendKeepsArena | asm_lab04/arm/path/path_finding.c:551-557 | a child one step from its parent keeps every node on the map and linked to a neighbour |
| AStar.GrowKeepsQueue | asm_lab04/arm/path/path_finding.c:563 | queue entries keep priority distance + steps after an enqueue |
| AStar.GrowKeepsCache | asm_lab04/arm/path/path_finding.c:560 | cache keys stay ascending and name their node's position |
| AStar.GrowKeepsClosed | asm_lab04/arm/path/path_finding.c:560-564 | every cached node is still queued or expanded after a miss |
| AStar.ExpandedGrows | asm_lab04/arm/path/path_finding.c:547-565 | an expanded node stays expanded as the arena and the cache grow |
| AStar.HitKeeps | asm_lab04/arm/path/path_finding.c:560 | a hit keeps the expansion invariant |
| AStar.MissKeeps | asm_lab04/arm/path/path_finding.c:560-564 | a miss keeps the expansion invariant and grows the queue and the cache by one each |
| AStar.MissHasRoom | asm_lab04/arm/path/path_finding.c:560-564 | under the search invariant a miss never meets a full cache or queue, so it appends, caches and queues the child |
| AStar.PopKeeps | asm_lab04/arm/path/path_finding.c:538-547 | dequeuing a node that is not the goal leaves a state ready to expand all of its neighbours |
| AStar.CoverageShifts | asm_lab04/arm/path/path_finding.c:547-550 | neighbours still to visit, or already cached, cover every successor |
| AStar.ExpandAllKeeps | asm_lab04/arm/path/path_finding.c:547-565 | expanding every neighbour keeps the search invariant and never fails for capacity |
| AStar.InvNodesBelow | asm_lab04/arm/path/path_finding.c:535-572 | every queued node is in the arena |
| AStar.RankFollowsId | asm_lab04/arm/path/path_finding.c:214-218 | on the map, key order is rank order |
| AStar.CacheRankBound | asm_lab04/arm/path/path_finding.c:126-154 | the cache size is bounded by the rank of its last key plus one |
| AStar.CacheBound | asm_lab05/arm/path/path_finding.h:18-19 | the cache never holds more than 80 entries, so CACHE_CAPACITY and QUEUE_CAPACITY are never reached |
| AStar.PathToValid | asm_lab04/arm/path/path_finding.c:513-531 | following prev links from node i gives steps + 1 positions, from the start to the node, each a successor of the last |
| AStar.CachedIsExpanded | asm_lab04/arm/path/path_finding.c:535-572 | once the queue is empty, every cached position is not the goal and all its successors are cached |
| AStar.PathStaysCached | asm_lab04/arm/path/path_finding.c:535-572 | on an exhausted search, every position of a legal path from the start is cached |
| AStar.ExhaustedMeansUnreachable | asm_lab04/arm/path/path_finding.c:593-599 | "search space exhausted" means no legal path from the start reaches the goal |
| AStar.Search | asm_lab04/arm/path/path_finding.c:576-621 | a_star_search either finds a node at the goal whose path from the player is legal with steps + 1 tiles, or proves the goal unreachable; the step count is at most 80 |
| ImageProcessing.Container.constructor | asm_lab05/x86/image_processing/image_processing.c:163-191 | a container has the requested shape and width * height * comp zero bytes |
| ImageProcessing.AllocateContainer | asm_lab05/x86/image_processing/image_processing.c:163-191 | allocation fails exactly for 0 components or more than RGBA; otherwise the container has that shape and zeroed data |
| ImageProcessing.IndexInRange | asm_lab05/x86/image_processing/image_processing.c:269-273 | a pixel of the image has its row-major index inside the data |
| ImageProcessing.RowMajorDivMod | asm_lab05/x86/image_processing/image_processing.c:341-364 | the flat index of apply_filter's loop gives back x and y |
| ImageProcessing.ValidFits | asm_lab05/x86/image_processing/image_processing.c:163-191 | a container holds at least one byte per pixel |
| ImageProcessing.ConvFilterAt | asm_lab05/x86/image_processing/image_processing.c:266-292 | _conv_filter_x_y returns the border pixel unchanged, and inside the absolute convolution sum saturated at 255 |
| ImageProcessing.ConvWindow | asm_lab05/x86/image_processing/image_processing.c:277-284 | the double loop adds the nine kernel-weighted window pixels |
| ImageProcessing.WindowIndex | asm_lab05/x86/image_processing/image_processing.c:280-281 | each window read falls inside the image data and is the window pixel the kernel index weighs |
| ImageProcessing.ConvSumNegated | asm_lab05/x86/image_processing/image_processing.c:278-284 | negating the kernel negates the sum |
| ImageProcessing.NegatedKernel | asm_lab05/x86/image_processing/image_processing.c:277-290 | since the absolute value is taken, a kernel and its negation give the same output |
| ImageProcessing.ConvSumFlat | asm_lab05/x86/image_processing/image_processing.c:278-284 | on a flat window, the sum is the pixel times the kernel's sum |
| ImageProcessing.FlatRegionHasNoEdge | asm_lab05/x86/image_processing/kernels.c:4-12 | zero-sum detector kernels give 0 inside a flat region |
| ImageProcessing.IdentitySum | asm_lab05/x86/image_processing/image_processing.c:278-284 | the identity kernel's partial sums pick the centre pixel |
| ImageProcessing.IdentityKernel | asm_lab05/x86/image_processing/image_processing.c:266-292 | convolving with the identity kernel returns the pixel |
| ImageProcessing.DetectorsSumToZero | asm_lab05/x86/image_processing/kernels.c:4-12 | the ridge and edge detection kernels are valid int8 kernels summing to zero |
| ImageProcessing.Compare | asm_lab05/x86/image_processing/image_processing.c:260-264 | compare_uint8_t is negative, zero or positive exactly as a <, ==, > b |
| ImageProcessing.CompareAntisymmetric | asm_lab05/x86/image_processing/image_processing.c:260-264 | swapping the arguments negates the comparison |
| ImageProcessing.InsertByte | asm_lab05/x86/image_processing/image_processing.c:332 | insertion adds one byte |
| ImageProcessing.SortBytes | asm_lab05/x86/image_processing/image_processing.c:332 | sorting keeps the length |
| ImageProcessing.InsertByteSorted | asm_lab05/x86/image_processing/image_processing.c:332 | inserting into a sorted sequence keeps it sorted and adds exactly that byte |
| ImageProcessing.SortBytesSorted | asm_lab05/x86/image_processing/image_processing.c:332 | the sort (the qsort call) yields a sorted permutation |
| ImageProcessing.InsertByteCounts | asm_lab05/x86/image_processing/image_processing.c:332 | insertion adds the new byte to the at-most and at-least counts |
| ImageProcessing.SortBytesCounts | asm_lab05/x86/image_processing/image_processing.c:332 | sorting keeps the at-most and at-least counts |
| ImageProcessing.SortedCountLe | asm_lab05/x86/image_processing/image_processing.c:336 | in a sorted sequence, k + 1 elements are at most the k-th |
| ImageProcessing.SortedCountGe | asm_lab05/x86/image_processing/image_processing.c:336 | in a sorted sequence, \|s\| - k elements are at least the k-th |
| ImageProcessing.MedianSplits | asm_lab05/x86/image_processing/image_processing.c:332-336 | array[2] after sorting is one of the five bytes, with at least three at most it and three at least it |
| ImageProcessing.Cross | asm_lab05/x86/image_processing/image_processing.c:323-329 | the cross window is five bytes: the pixel and its four direct neighbours |
| ImageProcessing.MedianOfFlatCross | asm_lab05/x86/image_processing/image_processing.c:300-338 | on a flat cross, and on the border, the median filter returns the pixel |
| ImageProcessing.ApplyFilter | asm_lab05/x86/image_processing/image_processing.c:341-364 | a non-grayscale image gives NULL; otherwise a fresh image of the same shape whose every pixel is the filter applied at that place |
| ImageProcessing.RowsMakeImage | asm_lab05/x86/image_processing/image_processing.c:352-361 | once every flat index below width * height holds the filtered pixel, every (x, y) of the image does |
| ImageProcessing.FilterRow | asm_lab05/x86/image_processing/image_processing.c:352-361 | one row of the loop fills that row with filtered pixels and keeps the earlier rows |
| ImageProcessing.FilterCall | asm_lab05/x86/image_processing/image_processing.c:357 | the call through filter_x_y computes the selected filter at (x, y) |
| ImageProcessing.ShowDifferences | asm_lab05/x86/image_processing/image_processing.c:418-454 | different shapes are Different; otherwise Same exactly when the first width * height bytes agree |
| ImageProcessing.WalkBoth | asm_lab05/x86/image_processing/image_processing.c:434-451 | the nested loops report Same exactly when the first outer * inner bytes agree |
| ImageProcessing.ShowDifferencesMissesLaterComponents | asm_lab05/x86/image_processing/image_processing.c:418-454 | on two 1 x 1 RGB containers that differ only in the blue byte, ShowDifferences answers Same while ShowAllDifferences answers Different |
| ImageProcessing.ShowAllDifferences | asm_lab05/x86/image_processing/image_processing.c:418-454 | corrected comparison: Same exactly when all the data bytes agree |
| BinaryTree.InsertedValues | asm_lab06/x86/binary_tree/main.c:54-68 | insertion adds exactly the inserted subtree's keys |
| BinaryTree.InsertedSize | asm_lab06/x86/binary_tree/main.c:54-68 | insertion adds exactly the inserted subtree's nodes |
| BinaryTree.InsertedBst | asm_lab06/x86/binary_tree/main.c:54-68 | inserting a leaf keeps the search-tree order (left at most, right greater) |
| BinaryTree.KeysConcat | asm_lab06/x86/binary_tree/main.c:54-68 | the keys of a concatenation are the keys of the parts |
| BinaryTree.InOrderKeys | asm_lab06/x86/binary_tree/main.c:54-68 | the in-order listing holds every key of the tree, once per node |
| BinaryTree.InOrderAscending | asm_lab06/x86/binary_tree/main.c:54-68 | a search tree lists in ascending key order |
| BinaryTree.KeyIn | asm_lab06/x86/binary_tree/main.c:54-68 | a listed item's key is among the keys |
| BinaryTree.BuildBst | asm_lab06/x86/binary_tree/main.c:110-118 | any insertion sequence builds a search tree |
| BinaryTree.BuildValues | asm_lab06/x86/binary_tree/main.c:110-118 | the built tree holds exactly the inserted keys |
| BinaryTree.InsertedKeySet | asm_lab06/x86/binary_tree/main.c:54-68 | inserting a leaf adds its key |
| BinaryTree.InsertedStrict | asm_lab06/x86/binary_tree/main.c:54-68 | inserting a new key keeps the tree strict |
| BinaryTree.KeySetIsValues | asm_lab06/x86/binary_tree/main.c:54-68 | the set of a tree's keys and the multiset of its keys hold the same keys |
| BinaryTree.StrictBstIsBst | asm_lab06/x86/binary_tree/main.c:54-68 | a search tree with distinct keys is a search tree in the left-at-most, right-greater order insert keeps |
| BinaryTree.SeqKeysIsKeys | asm_lab06/x86/binary_tree/main.c:110-118 | the set and the multiset of a list's keys hold the same keys |
| BinaryTree.BuildKeySet | asm_lab06/x86/binary_tree/main.c:110-118 | the set of keys is the set of inserted keys |
| BinaryTree.BuildStrict | asm_lab06/x86/binary_tree/main.c:110-118 | distinct keys build a strict search tree |
| BinaryTree.BuildItems | asm_lab06/x86/binary_tree/main.c:110-118 | the in-order listing holds exactly the inserted items |
| BinaryTree.InOrderInserted | asm_lab06/x86/binary_tree/main.c:54-68 | after an insertion the listing holds the old items and the new one |
| BinaryTree.InOrderStrict | asm_lab06/x86/binary_tree/main.c:54-68 | a strict search tree lists in strictly ascending order |
| BinaryTree.InOrderKeySet | asm_lab06/x86/binary_tree/main.c:54-68 | every listed key is a key of the tree |
| BinaryTree.StrictlyAscendingUnique | asm_lab06/x86/binary_tree/main.c:54-68 | two strictly ascending listings with the same members are equal |
| BinaryTree.InOrderIsSorted | asm_lab06/x86/binary_tree/main.c:110-133 | with distinct keys, the listing is the sorted list of the inserted items |
| BinaryTree.InsertionOrderIrrelevant | asm_lab06/x86/binary_tree/main.c:110-133 | with distinct keys, two insertion orders of the same items list identically |
| BinaryTree.InsertedRightChain | asm_lab06/x86/binary_tree/main.c:54-68 | inserting a key above all others keeps a right-only chain |
| BinaryTree.InsertedLeftChain | asm_lab06/x86/binary_tree/main.c:54-68 | inserting a key at or below all others keeps a left-only chain |
| BinaryTree.IncreasingBuildsRightChain | asm_lab06/x86/binary_tree/main.c:141-148 | strictly increasing insertions degenerate into a right-only chain |
| BinaryTree.DecreasingBuildsLeftChain | asm_lab06/x86/binary_tree/main.c:156-167 | non-increasing insertions degenerate into a left-only chain, since equal keys go left |
| BinaryTree.Reach | asm_lab06/x86/binary_tree/main.c:54-68 | the records reachable from i contain i and lie between i and the heap's end |
| BinaryTree.TreeFrame | asm_lab06/x86/binary_tree/main.c:54-68 | records outside a tree's reach do not affect its value, reach or shape |
| BinaryTree.Slot | asm_lab06/x86/binary_tree/main.c:54-68 | the search stops at a reachable record whose chosen child is NULL |
| BinaryTree.AttachedLinked | asm_lab06/x86/binary_tree/main.c:54-68 | attaching changes exactly one NULL link of one record into the new node |
| BinaryTree.AttachedTree | asm_lab06/x86/binary_tree/main.c:54-68 | attaching the node gives the value-level insertion, grows the reach by the node's, and keeps the shape |
| BinaryTree.AttachedLeft | asm_lab06/x86/binary_tree/main.c:55-60 | the left recursion of insert meets the same specification |
| BinaryTree.AttachedRight | asm_lab06/x86/binary_tree/main.c:61-66 | the right recursion of insert meets the same specification |
| BinaryTree.PreorderSize | asm_lab06/x86/binary_tree/main.c:73-93 | the preorder has one entry per node |
| BinaryTree.PreorderReach | asm_lab06/x86/binary_tree/main.c:73-93 | the preorder lists exactly the reachable records |
| BinaryTree.PreorderDistinct | asm_lab06/x86/binary_tree/main.c:73-93 | in a tree-shaped heap, the preorder lists no node twice |
| BinaryTree.DistinctJoin | asm_lab06/x86/binary_tree/main.c:73-93 | a node followed by the disjoint preorders of its two subtrees repeats nothing |
| BinaryTree.Heap.AllocateNodeWithData | asm_lab06/x86/binary_tree/main.c:31-46 | a failed malloc gives NULL and no change; otherwise a new leaf with that value and data, and all older trees are unchanged |
| BinaryTree.Heap.AllocateNode | asm_lab06/x86/binary_tree/main.c:49-51 | allocate_node is the above with NULL data |
| BinaryTree.Heap.Insert | asm_lab06/x86/binary_tree/main.c:54-68 | the node is attached at the NULL link its key leads to; the tree is the value-level insertion and stays tree-shaped |
| BinaryTree.Heap.GetAllNodes | asm_lab06/x86/binary_tree/main.c:73-93 | a NULL root or buffer returns num; otherwise the preorder is written from num, cut at MAX_NODES, nothing else is touched, and the new count is returned |
| BinaryTree.Extended | asm_lab06/x86/binary_tree/main.c:31-46 | allocating a record changes no existing tree |
| BinaryTree.CollectedPreorder | asm_lab06/x86/binary_tree/main.c:84-92 | the counts of the two recursive calls add up to the capped preorder length |
| BinaryTree.Collected | asm_lab06/x86/binary_tree/main.c:84-92 | the writes of the node and the two recursive calls form the capped preorder |
| BinaryTree.QuickFoxExamples | asm_lab06/x86/binary_tree/main.c:110-133 | both example insertion orders list "A quick brown fox jumps over the lazy dog" |
| BinaryTree.OwlsExample | asm_lab06/x86/binary_tree/main.c:141-148 | the owls example is a right chain that lists in insertion order |
| BinaryTree.NiExample | asm_lab06/x86/binary_tree/main.c:156-167 | the "Ni" example is a left chain that lists in reverse insertion order |
| Lfsr.Feedback | asm_lab06/arm/backtrace/backtrace.c:47-58 | the feedback is one bit |
| Lfsr.Taps12Feedback | asm_lab06/arm/backtrace/backtrace.c:46-58 | with the 12-bit taps the feedback is the xor of bits 11, 5, 3 and 0 |
| Lfsr.Taps12Bounded | asm_lab06/arm/backtrace/backtrace.c:46-58 | the next state stays in 12 bits |
| Lfsr.Taps12KeepsNonZero | asm_lab06/arm/backtrace/backtrace.c:46-58 | 0 is a fixed point, and a nonzero 12-bit state stays nonzero |
| Lfsr.Taps12Injective | asm_lab06/arm/backtrace/backtrace.c:46-58 | the step is one-to-one on 12-bit states |
| Lfsr.Generator.constructor | asm_lab06/arm/backtrace/backtrace.c:43 | the static state starts at 0 |
| Lfsr.Generator.Inc | asm_lab06/arm/backtrace/backtrace.c:47-58 | the state advances by one step, and the new state is returned |
| Lfsr.Generator.Srand | asm_lab06/arm/backtrace/backtrace.c:61-66 | a zero seed becomes 1, and the state is never zero |
| Lfsr.Generator.Rand | asm_lab06/arm/backtrace/backtrace.c:69-71 | advances with the 12-bit taps and returns the new state minus one |
| Lfsr.DispatchFromState | asm_lab06/arm/backtrace/backtrace.c:19-41 | the backtrace is shown exactly when the low nibble of the state is 1; A, B, C and D are picked by the listed nibbles |
| LeadingZeros.LeadingZeroCount | asm_lab04/x86/lzcnt/main.c:5-14 | the count is the position of the highest set bit counted from the top, and all bits above it are clear |
| LeadingZeros.LeadingZeroCountUnique | asm_lab04/x86/lzcnt/main.c:5-14 | a value has only one leading-zero count |
| LeadingZeros.LeadingZeroCountOf0x87 | asm_lab04/x86/lzcnt/main.c:28-36 | 0x87 has 24 leading zeros, the value the test expects |
| Gpio.SignedDiv8 | asm_lab04/compiler/gpio_c.c:23 | signed division by 8 truncates towards zero on the two's-complement value |
| Gpio.ConfigRegister | asm_lab04/compiler/gpio_c.c:3-29 | the result is the shifted register value with 0xA5 set, masked by the final mask; it is non-negative |
| Gpio.BeforeDivisionBits | asm_lab04/compiler/gpio_c.c:8-23 | before the division, bit 0 is clear, the nibble at bits 4-7 is 0xA, the top byte is 0x66, and bits 16-23 are clear |
| Gpio.DivisionIsShift | asm_lab04/compiler/gpio_c.c:23-26 | the value divided is non-negative, so the signed division is a shift by 3 |
| Gpio.BeforeDivisionKeeps | asm_lab04/compiler/gpio_c.c:8-23 | before the division, the value is 0x660000A0 with only the input bits under 0xA504 kept |
| Leds.Transform | asm_lab01/c/exo2.c:25-29 | the bits under MASK are kept and every other bit is inverted |
| Leds.TransformInvolution | asm_lab01/c/exo2.c:25-29 | applying the transform twice gives back the pattern |
| Leds.TransformIsXor | asm_lab01/c/exo2.c:14-29 | the transform is xor with 0x00FFFFFF |
| Leds.TransformKeepsTopDigits | asm_lab01/c/exo2.c:14-29 | the printed digits of the top byte are unchanged |
| Leds.TransformFlipsLowDigits | asm_lab01/c/exo2.c:14-29 | every printed digit of the low 24 bits changes |
| Leds.PrintLed | asm_lab01/c/exo2.c:38-46 | prints 32 digits, bit 0 first, then a newline |
| StringCopy.StrLen | asm_lab01/c/exo1.c:28 | strlen is the index of the first NUL |
| StringCopy.AllocateString | asm_lab01/c/exo1.c:12-22 | as written: a fresh buffer of exactly length characters copied from the source, with no terminator |
| StringCopy.StrLenCopyUnterminated | asm_lab01/c/exo1.c:12-29 | a copy of strlen(s) characters contains no NUL |
| StringCopy.WelcomeCopyUnterminated | asm_lab01/c/exo1.c:26-29 | the greeting has length 15, and its copy holds no terminator for printf to stop at |
| StringCopy.CopyWelcome | asm_lab01/c/exo1.c:26-29 | main's call of allocate_string on the greeting returns a 15-character buffer with no terminator in it |
| StringCopy.AllocateCString | asm_lab01/c/exo1.c:12-22 | corrected: length characters are copied, followed by a NUL |
| StringCopy.TerminatedCopyReadsBack | asm_lab01/c/exo1.c:26-29 | a terminated copy reads back, through strlen, as the original text |
| DotProduct.Compute | asm_lab04/compiler/dot_product.c:1-7 | a non-positive size gives 0; otherwise the result is the sum of a[i] + b[i] over the first size elements |
| DotProduct.PairSumIsSumOfTotals | asm_lab04/compiler/dot_product.c:1-7 | the routine adds the two element totals: it is not a product |
| DotProduct.PairSumSymmetric | asm_lab04/compiler/dot_product.c:1-7 | swapping the two arrays gives the same result |
| DotProduct.NoOverflowSymmetric | asm_lab04/compiler/dot_product.c:1-7 | the no-overflow condition is symmetric in the two arrays |

## Left out

- Printing, prompts and the `main` functions of every program are not modelled.
  - They are I/O only.
  - The values `main` checks are stated as lemmas: the distance map, the 0x87
    test, and the example trees.
- move_player_in_direction and get_directions_student are not modelled: they
  are student stubs and keyboard handling, outside the solver.
- The distance functions have assembly bodies, which are not part of this
  model. Each is modelled as the integer metric its name describes.
- `Heuristics.Distance` (sum of squares) does not model uint32 wrap-around.
  - Coordinates are on the map, so the values stay below 200.
  - Queue priorities are `nat` for the same reason.
- The maps of `path.h` are not modelled. The properties hold for every 8 x 10
  map.
- Node deallocation is not modelled. This covers the free on a cache hit, in
  clear_cache, and in free_tree. A node that is never kept is simply not added
  to the arena.
- The C code spins forever when the queue or the cache is full.
  - The model reports this as an outcome.
  - The model proves that it cannot happen on an 8 x 10 map.
- Neighbors.MovePlayer requires the old position to be on the map, because the C
  code writes to it without a bounds check.
- The solver's function pointers (distance_function, get_legal_neighbors) become
  a `Heuristic` and a `Policy` parameter.
- conv_filter_x_y is not modelled. It has no return statement, so its result is
  undefined.
  - The filter is a `Filter` parameter: a convolution kernel or the median
    filter.
  - The sharpen and blur kernels are listed as constants. No property is stated
    about them.
- COMPONENT_GRAYSCALE, COMPONENT_RGBA and SAME/DIFFERENT come from a header that
  is not part of this model.
  - The component counts are parameters.
  - SAME/DIFFERENT is the `Verdict` datatype.
  - KERNEL_SIZE is taken to be 3.
- load_image, save_image, grayscale_conversion, apply_filter_student and
  free_container are not modelled. They are file I/O, a student stub, and
  deallocation.
- ImageProcessing.AllocateContainer does not model a failed malloc. The C code
  exits the process there.
- ImageProcessing.ShowDifferences does not model the printed list of
  differences. Only the verdict is modelled.
- BinaryTree.Heap.Insert requires the inserted node to be newer than every node
  of the tree, and both trees to be tree-shaped.
  - The C code assumes the same of the trees it builds.
  - The model keeps every link pointing to a later record, and that is what
    excludes cycles.
- BinaryTree.Heap.GetAllNodes requires a non-NULL buffer to hold MAX_NODES
  entries, as the C caller's buffer does.
- BinaryTree.Heap.AllocateNodeWithData takes malloc's failure as a parameter.
  Node values are unbounded naturals rather than uint32.
- traverse_tree_asm, free_tree and show_backtrace are not modelled. They are
  assembly, deallocation, and stack inspection.
- The recursion among functions A to D in `backtrace.c` is not modelled. Only
  the dispatch rule they share is modelled.
- StringCopy.AllocateString takes a natural length and always returns a buffer.
  The C code takes a signed `int` and does not check malloc's result; negative
  lengths and a failed malloc are not modelled. Its only caller passes strlen.
- LeadingZeros.LeadingZeroCount requires a nonzero value, because the C loop
  never ends on 0.
- DotProduct.Compute requires that no partial sum overflows int32. The C
  behaviour on signed overflow is undefined.
- `cpuid.c` and `exo3.c` are not modelled. They are inline assembly and an
  exercise outside this model.

## Findings

| source | as written | input that shows it | evidently intended | confidence | as-written member | corrected member |
|---|---|---|---|---|---|---|
| asm_lab01/c/exo1.c:12-29 | allocate_string copies strlen(s) characters into a buffer of exactly that size, with no NUL, and the copy is printed with `%s` | "Welcome to ASM\n": 15 characters are copied and no terminator follows | allocate strlen(s) + 1 bytes and copy the terminator too | not executed | StringCopy.CopyWelcome | StringCopy.TerminatedCopyReadsBack |
| asm_lab05/x86/image_processing/image_processing.c:418-454 | show_differences walks width * height bytes, so for images with several components it compares only the first third or quarter of the data | two 1 x 1 RGB images with bytes [0, 0, 0] and [0, 0, 1] are reported the same | walk width * height * comp bytes (latent in this program: the only caller, line 117, compares grayscale outputs of apply_filter, where width * height is all the data) | not executed | ImageProcessing.ShowDifferencesMissesLaterComponents | ImageProcessing.ShowAllDifferences |
