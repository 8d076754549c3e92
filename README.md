# pool — a verified model of the object pool in `src/pool.h`

The header `src/pool.h` provides fixed-element-size object pools. Each pool
is built from three parts:

- **A node-management algorithm.** There are three:
  - `Pool_list_base`: a singly-linked free list.
  - `SPool_list_bitset`: the free list plus a per-slot occupancy bitset and an index-based bidirectional iterator.
  - `Pool_dlist_base`: the free list plus a circular doubly-linked "used" list (`dlist_head`) anchored by a sentinel, with a node-based iterator.
- **A capacity policy.** Static pools (`SPool_base`) have a fixed array of N nodes. Dynamic pools (`DPool_base`) grow in `create` and `reserve`, and can be moved.
- **A growth strategy** for dynamic pools. `Pool_node_allocator` adds one node per step. `Pool_block_allocator` adds one block of N nodes per step and can rebuild its free chain from its blocks (`readd_blocks`).

`Pool_xxx` composes a dynamic pool from these parts. The `pool::Pool` facade adds `POOL_CREATE_EXCEPTION`.

## How the model represents the pool

Nodes are arena ids (`nat`), not pointers.

- **Fresh ids.** Each storage keeps a counter `top`. Every growth step takes the next ids, so ids are never reused across allocations.
- **Id ranges.** For the list and bitset pools, slot i of `m_pool` is id i. For the dlist pool, id 0 is the sentinel `m_used_nodes` and node ids start at 1.
- **Ghost sequences.** The free chain and the used list each carry the sequence of ids they hold, in order (`FreeChain.free`, `Ring.live`). The contracts describe the free chain and the used list through these sequences.

Modules, each a class whose fields the source updates in place:

| module | file | source part |
|---|---|---|
| `FreeChains` | `free_chain.dfy` | `m_free_nodes` and the `next` field of free nodes |
| `Storages` | `storage.dfy` | `m_capacity`/N, the node and block allocators, `reserve`, `shrink_to_fit`, the allocator destructors and moves |
| `ListPools` | `list_pool.dfy` | `Pool_list_base` and `SPool_list`, and `Pool_list`/`Pool_list_block` via `Pool_xxx` |
| `BitsetPools` | `bitset_pool.dfy` | `SPool_list_bitset` and its iterator. The pool wraps a static list pool plus an `array<bool>` for `m_used`. |
| `Rings` | `ring.dfy` | `dlist_head`. `next`/`prev` are maps from id to id; the ghost `live` is the order round the circle. |
| `DListPools` | `dlist_pool.dfy` | `Pool_dlist_base` and `SPool_dlist`, and `Pool_dlist`/`Pool_dlist_block` via `Pool_xxx` |

`PoolTypes` (`pool_types.dfy`) holds the flags, the results and the sequence vocabulary:

- `Descending`: the order a node array leaves on the free chain.
- `Occupied`: the ascending order of a scan.
- `Freed`/`Reverse`: the order a destroying scan leaves on the free chain.

`Scenarios` (`scenarios.dfy`) follows fixed call sequences through the contracts: the sizes test of `tests/base_tests.h`, and short sequences of create, destroy, destroy_all and iteration.

The heap is a parameter:
- `create` takes a success flag for the allocation it may make;
- `reserve` takes a sequence of outcomes, one per allocation attempt.

## Model

| member | source | states |
|---|---|---|
| `PoolTypes.CreateResult` | src/pool.h:1549-1562 | with `POOL_CREATE_EXCEPTION` a null result becomes `bad_alloc` and nothing else does; otherwise the pointer is passed through |
| `PoolTypes.DescendingFacts` | src/pool.h:895-901 | pushing an array in order leaves every id of the array on the chain exactly once, the last array node first |
| `PoolTypes.OccupiedFacts` | src/pool.h:979-983 | the slots a scan of the node array meets are the live ones, in strictly ascending order |
| `PoolTypes.OccupiedCount` | src/pool.h:961-984 | a scan of the whole array meets as many slots as are live, i.e. size() |
| `PoolTypes.FreedReversesScan` | src/pool.h:987-990 | destroying while scanning stacks the freed slots on the free chain in reverse scan order |
| `FreeChains.FreeChain.constructor` | src/pool.h:826 | the chain starts empty |
| `FreeChains.FreeChain.Top` | src/pool.h:903 | the head is null exactly when no node is free, and is otherwise the first free node |
| `FreeChains.FreeChain.Push` | src/pool.h:889-893 | the node becomes the head and the rest of the chain is unchanged |
| `FreeChains.FreeChain.Pop` | src/pool.h:907-911 | the head is unlinked, and the chain continues with the second node |
| `FreeChains.FreeChain.Reset` | src/pool.h:904 | the chain becomes empty and the node links are untouched |
| `FreeChains.FreeChain.PushArray` | src/pool.h:895-901 | the nodes of one array are pushed in array order, in front of the old chain |
| `FreeChains.FreeChain.TakeFrom` | src/pool.h:914-923 | the target takes the source's chain and the source is left null; on itself the chain ends null |
| `Storages.RebuiltLength` | src/pool.h:415-425 | the rebuilt chain holds N nodes per block |
| `Storages.RebuiltBounds` | src/pool.h:415-425 | the rebuilt chain holds only ids of the remaining blocks |
| `Storages.RebuiltDistinct` | src/pool.h:415-425 | non-overlapping blocks give a rebuilt chain with no node twice |
| `Storages.Storage.Unit` | src/pool.h:391-404 | one growth step adds exactly one node for the node allocator and exactly N nodes for the block allocator |
| `Storages.Storage.Static` | src/pool.h:222 | a static pool's capacity is N and it has no blocks |
| `Storages.Storage.Dynamic` | src/pool.h:249-251 | a dynamic pool starts with capacity 0 and no blocks |
| `Storages.Storage.AddNode` | src/pool.h:391-404 | when the heap delivers, the new node (or the block's N nodes, in array order) heads the free chain, capacity grows by as many, and a block heads `m_blocks`; when it fails, nothing changes |
| `Storages.Storage.DelNode` | src/pool.h:338-344 | the node allocator pops the head free node and capacity drops by 1; the block allocator unlinks the head block, capacity drops by N, and the free chain is not touched |
| `Storages.Storage.ReaddBlocks` | src/pool.h:415-425 | the free chain is reset, then every node of every block is pushed, following the block chain from its head |
| `Storages.Storage.Grow` | src/pool.h:268-271 | reserve's loop: the fresh ids head the free chain in array order, and for the block allocator the new blocks head `m_blocks`; nothing changes when capacity >= new_cap; capacity never passes new_cap by a whole unit; if it is still below new_cap it grew by one unit per successful allocation; every allocation succeeding brings it to new_cap |
| `Storages.Storage.Reserve` | src/pool.h:266-278 | the growth loop as in `Grow`, then with `POOL_RESERVE_EXCEPTION` an error exactly when capacity is still below new_cap |
| `Storages.Storage.ShrinkNodes` | src/pool.h:313-321 | free nodes are popped from the head while capacity > max(size, new_cap), so capacity ends at that floor if it started above it |
| `Storages.Storage.ShrinkBlocks` | src/pool.h:366-377 | a no-op on a non-empty pool; otherwise head blocks are released while capacity > new_cap, so capacity ends at most new_cap and less than N below it, and the chain is rebuilt from the remaining blocks |
| `Storages.Storage.Dtor` | src/pool.h:346-350 | the node allocator releases every free node and capacity drops by that many; the block allocator (427-431) releases every block and capacity becomes 0 |
| `Storages.Storage.MoveFrom` | src/pool.h:433-437 | the target takes capacity and the block chain, and the source is left with capacity 0 and no blocks |
| `ListPools.ListPool.Static` | src/pool.h:955-958 | an empty static pool whose free chain is every array node, the last node first |
| `ListPools.ListPool.Dynamic` | src/pool.h:1279 | an empty dynamic pool with no node |
| `ListPools.ListPool.Size` | src/pool.h:180 | size is the number of live objects and never exceeds capacity |
| `ListPools.ListPool.Capacity` | src/pool.h:251 | capacity is live objects plus free nodes, and N for a static pool |
| `ListPools.ListPool.Empty` | src/pool.h:181 | empty exactly when no object is live |
| `ListPools.ListPool.Full` | src/pool.h:182 | full exactly when the free chain is empty |
| `ListPools.ListPool.CreateObj` | src/pool.h:849-871 | with no free node the result is null and nothing changes; otherwise the head free node receives the object and leaves the chain |
| `ListPools.ListPool.DestroyObj` | src/pool.h:873-879 | the object goes and its node becomes the head of the free chain |
| `ListPools.ListPool.Destroy` | src/pool.h:811-815 | destroy(nullptr) changes nothing; otherwise as destroy_obj |
| `ListPools.ListPool.Create` | src/pool.h:253-263 | non-null exactly when a node was free, or the pool could grow and the heap delivered. A free node: the head of the chain takes the object, the chain goes on with the rest, capacity is unchanged. After growth: the last id of the new node or block takes the object, the chain holds the block's other nodes, capacity grows by one unit. Null: nothing changes |
| `ListPools.ListPool.AddNode` | src/pool.h:327-336 | the pool keeps its invariant across add_node: the fresh nodes head the free chain, hold no object, and capacity grows by as many as the heap delivered |
| `ListPools.ListPool.CreateOrRaise` | src/pool.h:1549-1562 | the facade's create: `bad_alloc` exactly when the flag is set and create yields null; either way the pool ends as create leaves it |
| `ListPools.ListPool.NodeIsUsed` | src/pool.h:998-1011 | a node is used exactly when it is not on the free chain |
| `ListPools.ListPool.ForEach` | src/pool.h:961-984 | for_each visits exactly the live slots, in array order |
| `ListPools.ListPool.DestroyAll` | src/pool.h:987-990 | a static pool ends empty, with the live slots stacked in front of the free chain in reverse array order; a dynamic list pool's destroy_all (887) changes nothing |
| `ListPools.ListPool.DestroyEach` | src/pool.h:968-983 | the scan with destroy_obj over all slots when full, or over the slots not on the free chain otherwise, empties the pool |
| `ListPools.ListPool.Reserve` | src/pool.h:266-278 | reserve keeps the objects and grows the storage as `Storages.Storage.Grow` states (fresh ids head the chain, capacity bounded under partial failure, one unit per success, new_cap reached when every allocation succeeds); with the flag, an error exactly when capacity is still below new_cap |
| `ListPools.ListPool.ShrinkToFit` | src/pool.h:313-321 | node allocator: capacity ends at max(size, new_cap) if above it, and the free chain keeps the nodes behind the popped ones; block allocator (366-377): chain, blocks and capacity unchanged on a non-empty pool; on an empty one, capacity unchanged at or below new_cap, otherwise at most new_cap and less than N below it, the remaining blocks a suffix of the old ones, and the chain rebuilt from them |
| `ListPools.ListPool.Dtor` | src/pool.h:1295-1299 | destroy_all (which does nothing here), then the allocator's dtor: the node allocator keeps only the live nodes, and the block allocator releases every block |
| `ListPools.ListPool.MoveFrom` | src/pool.h:914-923 | the target takes size, capacity, free chain, blocks and objects; the source is left empty with capacity 0 |
| `ListPools.ListPool.Moved` | src/pool.h:1282-1285 | the move constructor: a fresh pool holding everything the source held, the source emptied |
| `ListPools.ListPool.MoveAssign` | src/pool.h:289-302 | with the self-move guard a self-assignment changes nothing; without it, a self-assignment leaves the pool empty with capacity 0; otherwise as move_from |
| `BitsetPools.NextLive` | src/pool.h:1129-1138 | next() from cur lands between cur and end |
| `BitsetPools.NextLiveSpec` | src/pool.h:1129-1138 | next() lands on the least live slot above cur, or on end when there is none |
| `BitsetPools.PrevLiveSpec` | src/pool.h:1140-1157 | prev() lands on the greatest live slot below cur, or on end when there is none |
| `BitsetPools.FirstLive` | src/pool.h:1159-1171 | set_first_pos() lands at or before end |
| `BitsetPools.FirstLiveSpec` | src/pool.h:1159-1171 | set_first_pos() lands on the least live slot, or on end |
| `BitsetPools.BeginIsEnd` | src/pool.h:1183-1184 | begin() == end() exactly when no slot is live |
| `BitsetPools.NextLiveSame` | src/pool.h:1129-1138 | next() depends only on the bits it passes |
| `BitsetPools.PrevAfterNext` | src/pool.h:1125-1126 | from a live slot, -- after ++ comes back |
| `BitsetPools.NextAfterPrev` | src/pool.h:1125-1126 | from a live slot with a live predecessor, ++ after -- comes back |
| `BitsetPools.WalkScans` | src/pool.h:1129-1138 | iterating with ++ from a live slot to end meets the live slots above it, in order |
| `BitsetPools.IterationVisitsOccupied` | src/pool.h:1183-1184 | iteration from begin() to end() visits exactly the live slots, in ascending order |
| `BitsetPools.NextReadsPastEnd` | src/pool.h:1129-1138 | as written, ++ on the last live slot reads bit N of an N-bit bitset |
| `BitsetPools.NextReadsPastEndOfOneSlot` | src/pool.h:1131-1136 | the smallest case: one slot, live, and ++begin() reads bit 1 |
| `BitsetPools.NextAsWrittenEndsAlike` | src/pool.h:1129-1138 | apart from that read, the loop as written ends where the guarded next() ends |
| `BitsetPools.BitsetPool.constructor` | src/pool.h:1040-1043 | an empty pool with all bits clear and every array node on the free chain, the last node first |
| `BitsetPools.BitsetPool.Create` | src/pool.h:1047-1059 | null exactly when no node is free, and then nothing changes; otherwise the head free node receives the object, leaves the chain, and only its bit is set |
| `BitsetPools.BitsetPool.CreateOrRaise` | src/pool.h:1549-1562 | `bad_alloc` exactly when the flag is set and the pool is full; either way the pool ends as create leaves it |
| `BitsetPools.BitsetPool.Destroy` | src/pool.h:1062-1070 | destroy(nullptr) changes nothing; otherwise the bit is cleared and the node heads the free chain |
| `BitsetPools.BitsetPool.ForEach` | src/pool.h:1073-1084 | the slots with a set bit, in array order |
| `BitsetPools.BitsetPool.DestroyAll` | src/pool.h:1087-1091 | every object goes, every bit is clear, and the live slots are stacked on the free chain in reverse array order |
| `BitsetPools.BitsetPool.Next` | src/pool.h:1129-1138 | next() with the bit read guarded by cur < N: the next live slot, or end |
| `BitsetPools.BitsetPool.Prev` | src/pool.h:1140-1157 | prev(): the previous live slot, or end |
| `BitsetPools.BitsetPool.Begin` | src/pool.h:1159-1171 | begin() is the least live slot, or end on an empty pool |
| `BitsetPools.BitsetPool.End` | src/pool.h:1184 | end() is position N: past every live slot, where next() stays, and equal to begin() exactly when the pool is empty |
| `BitsetPools.BitsetPool.DestroyAt` | src/pool.h:1199-1205 | destroy(pos) returns where ++ on pos leads, before and after the object goes |
| `BitsetPools.BitsetPool.DestroyRange` | src/pool.h:1208-1214 | destroy(first, last) destroys exactly the objects in [first, last), stacks their nodes on the free chain in reverse scan order, and returns last |
| `Rings.EraseAt` | src/pool.h:544-547 | unlinking the element at k of a list without repeats cuts exactly it out |
| `Rings.DistinctCut` | src/pool.h:544-547 | the list left after an unlink still has no repeats, and holds the others |
| `Rings.AppendLinks` | src/pool.h:508-516 | insert(node, sentinel.prev, sentinel) yields the circle with the node at the end |
| `Rings.RemoveLinks` | src/pool.h:526-547 | del(node->prev, node->next) yields the circle without the node |
| `Rings.AtInjective` | src/pool.h:683-689 | two positions of the circle naming the same node are the same position |
| `Rings.Ring.constructor` | src/pool.h:587-590 | the sentinel points to itself: an empty circle |
| `Rings.Ring.Empty` | src/pool.h:459 | empty exactly when no node is linked |
| `Rings.Ring.Init` | src/pool.h:458 | init() leaves an empty circle |
| `Rings.Ring.PushBack` | src/pool.h:461 | the node is appended after the last element |
| `Rings.Ring.Remove` | src/pool.h:481 | the node is unlinked and the others keep their order |
| `Rings.Ring.SpliceFront` | src/pool.h:488-495 | into an empty circle, src's nodes move over in their order and src is re-initialised |
| `DListPools.DListPool.Static` | src/pool.h:1246-1249 | an empty static dlist pool whose free chain is every array node, the last node first |
| `DListPools.DListPool.Dynamic` | src/pool.h:587-590 | an empty dynamic dlist pool with no node |
| `DListPools.DListPool.Size` | src/pool.h:180 | size is the length of the used list and never exceeds capacity |
| `DListPools.DListPool.Capacity` | src/pool.h:251 | capacity is used plus free nodes, and N for a static pool |
| `DListPools.DListPool.Empty` | src/pool.h:181 | empty exactly when the used list is empty |
| `DListPools.DListPool.Full` | src/pool.h:182 | full exactly when the free chain is empty |
| `DListPools.DListPool.CreateObj` | src/pool.h:707-721 | with no free node the result is null and nothing changes; otherwise the head free node receives the object and goes to the back of the used list |
| `DListPools.DListPool.DestroyObj` | src/pool.h:723-731 | the node leaves the used list, the others keep their order, and it heads the free chain |
| `DListPools.DListPool.Destroy` | src/pool.h:607-611 | destroy(nullptr) changes nothing; otherwise as destroy_obj |
| `DListPools.DListPool.Create` | src/pool.h:253-263 | as for the list pool, and a non-null result is appended to the used list; on null the used list is unchanged |
| `DListPools.DListPool.AddNode` | src/pool.h:327-336 | as for the list pool; the used list is left as it was |
| `DListPools.DListPool.CreateOrRaise` | src/pool.h:1549-1562 | `bad_alloc` exactly when the flag is set and create yields null; either way the pool (used list included) ends as create leaves it |
| `DListPools.DListPool.ForEach` | src/pool.h:593-604 | for_each visits exactly the used list, in creation order |
| `DListPools.DListPool.DestroyAll` | src/pool.h:614-617 | the pool ends empty, with the used nodes stacked on the free chain in reverse list order |
| `DListPools.DListPool.Begin` | src/pool.h:658 | begin() is the first used node, or end on an empty pool |
| `DListPools.DListPool.End` | src/pool.h:659 | end() is the sentinel, never a used node |
| `DListPools.DListPool.Increment` | src/pool.h:640 | ++ moves to the next node of the list, from the last to end, and from end to the first |
| `DListPools.DListPool.Decrement` | src/pool.h:641 | -- moves to the previous node, from the first to end, and from end to the last |
| `DListPools.DListPool.IncrementDecrement` | src/pool.h:640-641 | -- undoes ++ and ++ undoes -- on every position |
| `DListPools.DListPool.DestroyAt` | src/pool.h:674-680 | destroy(pos) cuts pos out and returns its former successor |
| `DListPools.DListPool.DestroyRange` | src/pool.h:683-689 | destroy(first, last) cuts out exactly the list positions [first, last), stacks them on the free chain with the last one destroyed at the head, and returns last |
| `DListPools.DListPool.Reserve` | src/pool.h:266-278 | as for the list pool (the storage's growth lifted to the pool), with the used list unchanged |
| `DListPools.DListPool.ShrinkToFit` | src/pool.h:366-377 | as for the list pool (node allocator 313-321; block allocator: unchanged on a non-empty pool, otherwise a suffix of the blocks and a rebuilt chain), with the used list unchanged |
| `DListPools.DListPool.Dtor` | src/pool.h:1295-1299 | destroy_all, then the allocator's dtor: no object, capacity 0 |
| `DListPools.DListPool.MoveFrom` | src/pool.h:766-776 | the target takes size, capacity, free chain, blocks, objects and (spliced) the used list in order; the source is left empty with capacity 0 |
| `DListPools.DListPool.Moved` | src/pool.h:1282-1285 | the move constructor: a fresh pool holding the source's used list and free chain, the source emptied |
| `DListPools.DListPool.MoveAssign` | src/pool.h:289-302 | the self-move guard makes self-assignment a no-op; without it, self-assignment empties the pool; otherwise as move_from |
| `Scenarios.Gauges` | src/pool.h:180-182 | size never exceeds capacity, empty means size 0, and full means size equals capacity |
| `Scenarios.StaticListFilled` | tests/base_tests.h:56-85 | a two-node static pool with `POOL_FIXED_CAPACITY` reads 0/2/empty, hands out node 1 then node 0, reads full, then create yields null and nothing changes |
| `Scenarios.StaticListSizes` | tests/base_tests.h:56-107 | size, capacity, empty and full after each step of create, create, create when full, destroy, destroy, destroy(nullptr), as the sizes test asserts |
| `Scenarios.ListReusesLastFreed` | src/pool.h:849-879 | after nodes 1 and 0 are handed out and node 1 is destroyed, the next create hands out node 1 again |
| `Scenarios.FixedCapacityNeverGrows` | src/pool.h:256-262 | with `POOL_FIXED_CAPACITY` a dynamic create never grows |
| `Scenarios.CreateExceptionRaises` | src/pool.h:1553-1559 | on a one-node static pool with `POOL_CREATE_EXCEPTION`, the first create yields node 0 and the second raises `bad_alloc` |
| `Scenarios.DynamicGrowsOnCreate` | src/pool.h:256-262 | an empty dynamic pool grows on create when the heap delivers |
| `Scenarios.DListKeepsCreationOrder` | src/pool.h:707-731 | create_obj appends to the used list, so three creates leave it in creation order, and destroy_obj of the middle one closes the gap |
| `Scenarios.BitsetIteration` | src/pool.h:1129-1171 | with slots 0 and 2 of 3 live: begin is 0, ++ gives 2, then end |
| `Scenarios.BitsetEmptied` | src/pool.h:1087-1091 | after destroy_all, begin() == end() |
| `Scenarios.ListCreateThenDestroy` | src/pool.h:849-879 | destroy undoes create: the objects and the free chain are as before |
| `Scenarios.DListDestroyThenCreate` | src/pool.h:707-731 | create after destroy reuses the node just freed (LIFO) and puts it at the back of the used list |
| `Scenarios.DListDestroyAllTwice` | tests/ex_tests.h:76-84 | a second destroy_all changes nothing |

## Left out

- Raw storage (`aligned_storage`, placement new, `offsetof`, `get_node`/`get_data`, `index_node`) and the `Align` parameter: nodes are arena ids.
- Exceptions thrown by `T`'s constructor and `state_saver`, which restores the `next` field the constructor may clobber: construction always succeeds.
- Heap allocation and release: `new(std::nothrow)` is a caller-supplied outcome, and `delete` only lowers capacity.
- The memory a block destructor frees is not tracked. After a block pool's dtor, the free chain still names the released nodes, as `m_free_nodes` does in the source until a move resets it.
- The CRTP wiring, `Pool_dtor`, `SPool_base_flags`, `POOL_DTOR_OFF`, `is_nothrow_create`, `POOL_USING_ALIAS`, `Iterator_facade`, the reverse and const iterators, and the deleted copy operations: they hold no pool logic.
- `dlist_head::move_to_back`: the pool never calls it.
- Static pools' destructor (`SPool_base::dtor`): it is `destroy_all`, which is modelled.
- A block size of 0 is excluded by the dynamic constructors: each growth step would add an empty block and no node.
- `DListPools.DListPool.MoveFrom` requires an empty used list on the target, as its two callers guarantee (a fresh pool, or one after `dtor`).
- `ListPools.ListPool.Dtor`: a dynamic list pool's live objects are leaked as in the source. The model keeps them in `data` and does not say that they are unreachable.
- Element values: `T` is generic, and the iterator's dereference is the `data` map lookup.
- Self-move-assignment without `POOL_SELF_MOVE_GUARD` is modelled rather than excluded. The code runs `dtor` then `move_from` on the same object, which leaves an empty pool with capacity 0.
- Block `shrink_to_fit` is modelled as written: it can end below `new_cap` (by less than N); no `max(size, new_cap)` floor is claimed for it.

## Findings

| source | as written | input that shows it | evidently intended | confidence | as-written member | corrected member |
|---|---|---|---|---|---|---|
| src/pool.h:1129-1138 | `next()` increments `m_cur_pos` and then reads `m_used[m_cur_pos]` before testing `m_cur_pos < N`, so stepping past the last live slot reads bit N of an N-bit `std::bitset` | N = 1, slot 0 live, `++begin()` | stop at N without reading the bit | not executed | `BitsetPools.NextReadsPastEnd` | `BitsetPools.BitsetPool.Next` |
