# SoulEngine memory core in Dafny

This project models the memory core of the SoulEngine C++ engine.

- **The handle-chain arena allocator.** A table of 512 `Handle` records sits at the head of one reserved block. The live records form a singly linked chain, ordered by address, over the block's addressable region.
  - Allocation is first-fit (`FindFirstFreeMemoryBlock`) and takes the lowest unused table slot (`SetupNewHandle`).
  - Deallocation unlinks the record and zeroes it (`DeleteHandle`).
  - `Defragment(n)` slides at most `n` gapped blocks onto their predecessor's end. The newer snapshot skips pinned blocks.
  - The introspection functions count allocated bytes, free bytes, nodes and fragments.
- **The volatile frame allocator** of the newer snapshot: a bump offset, cleared every second frame.
- **The ownership wrappers.** `UniqueHandle` is the move-only owner. `WeakHandle` is the copyable non-owner, with `SetImmovable`/`IsImmovable` in the newer snapshot.
- **Two containers built on the allocator**: the ring-buffer `Queue` and the growable `Vector`.

Addresses are natural-number offsets from the start of the reserved block. The table occupies `[0, addrStart)` and blocks live in `[addrStart, memEnd)`. The intrusive `nextHandle` links are represented by `chain`: the sequence of table slots of the live records, in chain order. A record is `(location, byteSize, elementCount, isUsed, isCopyable)`.

The arena invariant `Arena.Valid` says:
- the table has 512 slots;
- the chain's slots are distinct table indices;
- the chain slots are exactly the slots whose `isUsed` is set;
- the chain's blocks lie inside the bounds in ascending, non-overlapping order.

A fatal `Assert` of the source becomes a precondition. The out-of-memory outcome of the first-fit search becomes a result value (`Fit.NoSpace`, `Allocation.OutOfMemory`, `Grant.Refused`).

The two snapshots have identical chain algorithms: `SetupNewHandle`, `FindFirstFreeMemoryBlock`, `DeleteHandle`, `GetTotalAllocatedBytes`, `GetTotalFreeBytes`, `GetNodeCount` and `CountFragments`. Only identifiers were renamed and the relocatable flag added. One model (`Arena`, `Chain`) serves both, and the table cites both snapshots' lines for those members.

The snapshots differ in three places:
- The older `Handle` has no relocatable flag, so its `Defragment` moves every gapped block (`Legacy.Defragment`).
- The older `StartUp` has no volatile storage.
- `SetImmovable`/`IsImmovable` exist only in the newer `WeakHandle`.

Modules:
- `Arena`: records, the arena and its invariant, and the introspection functions.
- `Chain`: first-fit search, slot choice, handle setup and handle deletion.
- `Defrag`: the defragmentation walk and `MoveHandle`.
- `VolatileMemory`: the frame allocator.
- `Handles`: the wrapper state machine and the ownership count over a collection of wrappers.
- `Manager`: the started/stopped manager, allocation through owners, and pins.
- `Legacy`: the older snapshot's differences.
- `Ring`: `Queue`.
- `Growable`: `Vector`.

Paths in the table below are relative to the repository root. Files under `SoulEngine/Source/Memory/` are the newer snapshot and files under `SoulEngine/Source/UtilsLib/Memory/` are the older one. The newer `UniqueHandle.h` is not part of this model; the older one gives the owner semantics.

## Model

| member | source | states |
|---|---|---|
| Arena.FreeBytes | SoulEngine/Source/Memory/MemoryManager.cpp:123-127 | Free bytes are the memory size minus the allocated bytes; on a valid arena this never wraps and is at least the part of the memory size beyond the addressable region |
| Arena.AllocatedWithinArena | SoulEngine/Source/Memory/MemoryManager.cpp:109-121 | The allocated bytes (sum of sizes over the chain) never exceed the addressable region, because the blocks are ordered and disjoint |
| Arena.OrderedDisjoint | SoulEngine/Source/Memory/MemoryManager.h:28-36 | In an address-ordered chain every earlier block ends no later than any later block starts: live blocks never overlap |
| Arena.NodeCount | SoulEngine/Source/Memory/MemoryManager.cpp:161-171 | The node count (chain length) equals the number of table slots marked used |
| Arena.NoFragmentsIffContiguous | SoulEngine/Source/Memory/MemoryManager.cpp:136-159 | The fragment count is zero exactly when every block starts where its predecessor (or the addressable start) ends |
| Arena.FragmentsAtMostNodes | SoulEngine/Source/UtilsLib/Memory/MemoryManager.cpp:120-143 | There are never more fragments than live blocks |
| Chain.GapIsFree | SoulEngine/Source/Memory/MemoryManager.cpp:218-233 | A gap the search accepts after block k overlaps no live block and stays inside the addressable region |
| Chain.FindFirstFreeMemoryBlock | SoulEngine/Source/Memory/MemoryManager.cpp:203-253 | The search succeeds exactly when some gap after a live block (or the empty region) fits the request. A result is the addressable start with no predecessor (empty chain) or the end of the first fitting live block, and the span overlaps no live block |
| Chain.FindFirstFreeMemoryBlockAsWritten | SoulEngine/Source/UtilsLib/Memory/MemoryManager.cpp:175-225 | On an empty chain it returns the addressable start unconditionally; otherwise it behaves like the corrected search |
| Chain.EmptyChainOverrun | SoulEngine/Source/Memory/MemoryManager.cpp:209-212 | On an empty chain, a request larger than the region is answered with a span that runs past the region's end, where the corrected search reports no space |
| Chain.FirstFreeSlot | SoulEngine/Source/Memory/MemoryManager.h:293-297 | The chosen slot is unused and every lower slot is used: the lowest free slot |
| Chain.InsertKeepsValid | SoulEngine/Source/UtilsLib/Memory/MemoryManager.h:306-319 | Splicing a record into the gap the search found keeps the arena valid and adds exactly its size to the allocated bytes |
| Chain.SetupNewHandle | SoulEngine/Source/Memory/MemoryManager.h:278-322 | With the corrected search it fails exactly when nothing fits. Otherwise it is first-fit placement: the record of count elements goes at the address the search returns, in the lowest free slot, spliced into the chain right after the search's predecessor block (at the head when there is none). No other slot changes, the arena stays valid, and allocated bytes and node count grow by the request and by one |
| Chain.DeleteHandle | SoulEngine/Source/Memory/MemoryManager.cpp:173-201 | Exactly the given slot leaves the chain, the others keep their relative order and records, the slot is zeroed, the arena stays valid, and bytes and node count drop by its size and by one |
| Chain.SetupThenDeleteRoundTrip | SoulEngine/Source/UtilsLib/Memory/MemoryManager.cpp:145-173 | Whenever the setup succeeds, deleting the handle just set up restores the chain, the blocks and the allocated bytes, and the whole arena when the chosen slot was zero |
| Chain.DeleteUndoesInsert | SoulEngine/Source/UtilsLib/Memory/MemoryManager.h:306-318 | Unlinking a record spliced in at any chain position gives back the original arena with that slot zeroed |
| Defrag.DefragBlocks | SoulEngine/Source/Memory/MemoryManager.cpp:81-107 | The walk changes only locations, moves at most the budget, and moves a block only if it is movable, and then onto its predecessor's (new) end. Which blocks move is `Defrag.WalkPrefix`; its progress when the budget is not spent is `Defrag.WalkProgress` |
| Defrag.WalkProgress | SoulEngine/Source/Memory/MemoryManager.cpp:88-104 | When the walk stops short of its budget, every movable block sits exactly at its predecessor's new end (the first at the addressable start): the walk made all the progress it could |
| Defrag.WalkPrefix | SoulEngine/Source/Memory/MemoryManager.cpp:88-104 | Whatever the budget, the walk packs a prefix of the chain: every movable block in it sits on its predecessor's new end, every block after it is exactly as it was, and the prefix stops short of the end only when the whole budget was spent |
| Defrag.UnpinnedPackedIsContiguous | SoulEngine/Source/UtilsLib/Memory/MemoryManager.cpp:55-79 | Without pins, a walk that made all the progress it could leaves the blocks contiguous from the start |
| Defrag.DefragKeepsOrder | SoulEngine/Source/Memory/MemoryManager.cpp:255-261 | Moving blocks onto their predecessor's end keeps them ordered inside the same bounds, and each block's location only decreases |
| Defrag.DefragFragmentsBound | SoulEngine/Source/Memory/MemoryManager.cpp:136-159 | The walk never increases the fragment count |
| Defrag.FullWalkPacks | SoulEngine/Source/UtilsLib/Memory/MemoryManager.cpp:55-79 | With a budget for every block and all blocks movable, the walk leaves the chain packed from the addressable start |
| Defrag.PinsIrrelevantWhenAllMovable | SoulEngine/Source/Memory/MemoryManager.cpp:96-101 | When no block is pinned, the pin check does not change the walk |
| Defrag.MovedCountsRelocations | SoulEngine/Source/Memory/MemoryManager.cpp:88-104 | The walk's moved-block counter equals the number of blocks whose location changed |
| Defrag.DefragmentWith | SoulEngine/Source/Memory/MemoryManager.cpp:81-107 | On a valid arena: still valid, same chain and bounds, same allocated bytes, no more fragments, at most the budget relocated. A relocated record is live, movable and strictly lower, lands on its predecessor's new end (the first on the addressable start), and nothing but locations changes. The walk packs a prefix of the chain and leaves every later block untouched, stopping early only with exactly the budget relocated |
| Defrag.Defragment | SoulEngine/Source/Memory/MemoryManager.cpp:81-107 | With the pin check: valid, same chain, same allocated bytes, no more fragments, at most the budget relocated, and a pinned record is left exactly as it was. Every moved block lands on its predecessor's new end; a prefix of the chain is packed (every relocatable block in it on its predecessor's end) and the rest untouched, the prefix falling short of the chain only with exactly the budget relocated |
| Defrag.DefragmentClosesSingleGap | SoulEngine/Source/Memory/MemoryManager.cpp:81-107 | From the contract alone: on a two-block chain whose first block starts the region and whose second is relocatable, `Defragment(1)` puts the second block on the first one's end and leaves no fragment |
| Defrag.FullDefragmentLeavesNoFragments | SoulEngine/Source/Memory/MemoryManager.cpp:81-107 | With a budget of at least the node count and no pinned block, defragmenting leaves zero fragments |
| VolatileMemory.Fresh | SoulEngine/Source/Memory/MemoryManager.cpp:43-55 | The volatile storage after start-up is zeroed, its offset is at the start and its counter is 0 |
| VolatileMemory.AllocateVolatile | SoulEngine/Source/Memory/MemoryManager.h:249-258 | Under the bound check, the old offset is returned and the offset advances by exactly count times the element size, staying within the buffer |
| VolatileMemory.ConsecutiveAllocationsAdjacent | SoulEngine/Source/Memory/MemoryManager.h:252-257 | Two consecutive volatile allocations are adjacent and do not overlap |
| VolatileMemory.IncrementFrameCounter | SoulEngine/Source/Memory/MemoryManager.cpp:71-79 | Below the clear period only the counter changes; on reaching it the buffer is zeroed, the offset rewound and the counter reset |
| VolatileMemory.TwoFramesClear | SoulEngine/Source/Memory/MemoryManager.cpp:71-79 | Two frames after any valid state the buffer is cleared |
| VolatileMemory.ClearEveryOtherFrame | SoulEngine/Source/Memory/MemoryManager.cpp:71-79 | Exactly one of two consecutive increments clears |
| VolatileMemory.VolatileScenario | SoulEngine/Source/TestsLib/Tests/MemoryManagerTests.cpp:61-82 | The second volatile allocation is one element past the first, and after two frames the first address is handed out again |
| Handles.FromHandle | SoulEngine/Source/UtilsLib/Memory/UniqueHandle.h:70-74 | Construction from a handle pointer gives a valid wrapper that owns exactly that one slot |
| Handles.MoveConstruct | SoulEngine/Source/UtilsLib/Memory/UniqueHandle.h:76-83 | Move construction conserves ownership: the target owns what the source owned and is the same pointer, and the source owns nothing |
| Handles.WeakMoveAssign | SoulEngine/Source/Memory/WeakHandle.h:136-145 | Weak move assignment frees nothing; the target and the reset source together hold exactly what the source held, and the source stops being the same pointer exactly when it had one |
| Handles.WeakSelfMoveAssign | SoulEngine/Source/Memory/WeakHandle.h:136-145 | Moving a weak handle onto itself leaves it null: it loses its pointer whenever it had one |
| Handles.Detach | SoulEngine/Source/UtilsLib/Memory/UniqueHandle.h:164-172 | Detach leaves the wrapper owning nothing and hands back a pointer that, rewrapped, is the same handle as before |
| Handles.MoveBackRestores | SoulEngine/Source/UtilsLib/Memory/WeakHandle.h:102-129 | Moving a wrapper out and back restores it and leaves the intermediate wrapper null |
| Handles.CopyAndDetachKeepIdentity | SoulEngine/Source/Memory/WeakHandle.h:183-209 | Equality is pointer identity: a copy equals its source, a detached pointer rewrapped equals the original, and the detached wrapper is invalid |
| Handles.MoveKeepsOwnership | SoulEngine/Source/UtilsLib/Memory/UniqueHandle.h:76-83 | Moving one owner into an empty wrapper of a collection leaves the multiset of owned slots unchanged |
| Handles.OwnedUpdate | SoulEngine/Source/UtilsLib/Memory/UniqueHandle.h:94-108 | Replacing one wrapper changes the owned slots by exactly what it owned before and after |
| Manager.EmptyArena | SoulEngine/Source/Memory/MemoryManager.cpp:36-41 | A freshly laid-out arena is valid, with a zeroed table, an empty chain, no allocated bytes and no fragments |
| Manager.StartUp | SoulEngine/Source/Memory/MemoryManager.cpp:29-56 | From the stopped state: started, invariant holding, empty chain, zeroed table, table at the head, free bytes equal to the addressable size, fresh volatile storage |
| Manager.StartUpArenaAsWritten | SoulEngine/Source/Memory/MemoryManager.cpp:29-41 | The written sizing: the addressable region ends, and the memory size is reported, at the requested size minus the table |
| Manager.StartUpOverstatesFreeBytes | SoulEngine/Source/Memory/MemoryManager.cpp:36-38 | As written, a fresh manager reports more free bytes than any request can obtain; with the corrected sizing the full free amount can be allocated |
| Manager.RestartIsFresh | SoulEngine/Source/UtilsLib/Memory/MemoryManager.cpp:42-53 | Starting again after a shutdown builds the same arena as a first start |
| Manager.FreeSlotWhileRoom | SoulEngine/Source/Memory/MemoryManager.h:293-297 | The unbounded slot scan finds a slot whenever fewer than 512 handles are live |
| Manager.AllocateArray | SoulEngine/Source/Memory/MemoryManager.h:239-247 | Refused exactly when nothing fits (under the corrected search). Otherwise the new arena and owner slot are exactly the first-fit placement `Chain.SetupNewHandle` makes, the owner is valid, no other slot changes, the record holds count elements of count times size bytes and is relocatable, and allocated bytes and node count grow by that many bytes and by one |
| Manager.Allocate | SoulEngine/Source/UtilsLib/Memory/MemoryManager.h:230-239 | One element, with the same first-fit placement: the owner's record has element count 1 and the allocated bytes grow by exactly the element size |
| Manager.Deallocate | SoulEngine/Source/Memory/MemoryManager.h:260-276 | Exactly element-count destructors run, the slot leaves the chain and its record is zeroed, every other slot is unchanged, and the allocated bytes drop by its size |
| Manager.Destroy | SoulEngine/Source/UtilsLib/Memory/UniqueHandle.h:85-92 | The owner's destructor frees its block exactly when it is valid, and otherwise changes nothing |
| Manager.MoveAssign | SoulEngine/Source/UtilsLib/Memory/UniqueHandle.h:94-108 | Move assignment frees the target's block when the target is valid, then the target takes the source's state and the source becomes null |
| Manager.SelfMoveAssign | SoulEngine/Source/UtilsLib/Memory/UniqueHandle.h:94-108 | Move-assigning an owner onto itself frees its block when it is valid (the slot leaves the chain and the bytes drop by its size) and leaves it null and owning nothing |
| Manager.SelfMoveAssignLosesBlock | SoulEngine/Source/UtilsLib/Memory/UniqueHandle.h:94-108 | Self-move-assignment loses the handle and its block, while moving the same owner into an empty wrapper keeps both |
| Manager.MoveAssignRestoresBytes | SoulEngine/Source/TestsLib/Tests/UniqueHandleTests.cpp:28-48 | Whenever both allocations are granted, a move assignment and both owners' ends bring the allocated bytes back to their starting value |
| Manager.UniqueDeallocate | SoulEngine/Source/UtilsLib/Memory/UniqueHandle.h:55-59 | Deallocate frees the block and leaves the owner null, invalid and owning nothing, so its destructor can run |
| Manager.UniqueDeallocateAsWritten | SoulEngine/Source/UtilsLib/Memory/UniqueHandle.h:174-181 | Deallocate as written frees the same block but leaves the owner valid over a null pointer |
| Manager.DeallocateAsWrittenBreaksDestructor | SoulEngine/Source/UtilsLib/Memory/UniqueHandle.h:85-92 | After the written Deallocate the owner's destructor cannot run safely; after the corrected one it can |
| Manager.DetachHandsOverOwnership | SoulEngine/Source/TestsLib/Tests/UniqueHandleTests.cpp:198-214 | Whenever the allocation is granted: after Detach the old owner is invalid and frees nothing, the new owner of the same pointer frees the block, and the bytes return to their starting value |
| Manager.UniqueDeallocateRestoresBytes | SoulEngine/Source/TestsLib/Tests/UniqueHandleTests.cpp:215-232 | Whenever the allocation is granted, allocating one element adds its size; Deallocate takes it back, and the owner's end frees nothing more |
| Manager.WeakViewDoesNotOwn | SoulEngine/Source/TestsLib/Tests/WeakHandleTests.cpp:23-40 | Whenever the allocation is granted, a weak handle built from the owner shares its live block and owns nothing; the owner's end restores the bytes |
| Manager.SetImmovable | SoulEngine/Source/Memory/WeakHandle.h:217-223 | Only the target record's relocatable flag changes, to the negation of the argument; the arena stays valid with the same bytes and fragments |
| Manager.SetThenIsImmovable | SoulEngine/Source/Memory/WeakHandle.h:217-231 | Reading the flag returns what was last set, and setting the value it already reads changes nothing |
| Manager.PinnedBlockStays | SoulEngine/Source/Memory/MemoryManager.cpp:255-261 | A block pinned through a weak copy of its owner keeps its location and record through any defragmentation |
| Manager.FlagChangeKeepsShape | SoulEngine/Source/Memory/MemoryManager.h:28-36 | Changing a record's relocatable flag keeps the arena valid, with the same allocated bytes and fragments |
| Legacy.StartUp | SoulEngine/Source/UtilsLib/Memory/MemoryManager.cpp:24-40 | The older start-up with the corrected sizing (region ending at the requested size): the same main arena as the newer corrected start-up, valid, empty, table at the head, and all reported free bytes obtainable |
| Legacy.StartUpAsWritten | SoulEngine/Source/UtilsLib/Memory/MemoryManager.cpp:31-36 | The older written sizing: the region ends, and the memory size is reported, at the requested size minus the table, so the free bytes reported equal the region's end |
| Legacy.StartUpOverstatesFreeBytes | SoulEngine/Source/UtilsLib/Memory/MemoryManager.cpp:31-36 | As written, the older fresh arena reports free bytes that no single request can obtain; with the corrected sizing that request fits |
| Legacy.Defragment | SoulEngine/Source/UtilsLib/Memory/MemoryManager.cpp:55-79 | With no pin check: valid, same chain and bytes, no more fragments, at most the budget relocated, blocks only move down and land on their predecessor's new end. A prefix of the chain is packed and the rest untouched, the prefix falling short only with exactly the budget relocated; when fewer blocks than the budget were relocated the chain has no fragments, so a budget of at least the node count always packs it |
| Legacy.SnapshotsAgreeWithoutPins | SoulEngine/Source/UtilsLib/Memory/MemoryManager.cpp:227-231 | When no block is pinned the older and newer Defragment give the same arena |
| Ring.Slot | SoulEngine/Source/UtilsLib/Containers/Queue.h:141-159 | The ring position i places after head, taken modulo the capacity |
| Ring.New | SoulEngine/Source/UtilsLib/Containers/Queue.h:86-95 | A new queue is valid and empty, with the given capacity |
| Ring.Push | SoulEngine/Source/UtilsLib/Containers/Queue.h:141-159 | Under the length check, the contents gain the element at the back and the ring invariant is kept |
| Ring.Peek | SoulEngine/Source/UtilsLib/Containers/Queue.h:126-131 | Peek returns the front element |
| Ring.Pop | SoulEngine/Source/UtilsLib/Containers/Queue.h:133-139 | With the head wrapped: the front element is returned and the rest stay in order |
| Ring.PopAsWritten | SoulEngine/Source/UtilsLib/Containers/Queue.h:133-139 | As written: reads the slot at head and increments head without wrapping |
| Ring.PopNeverWraps | SoulEngine/Source/UtilsLib/Containers/Queue.h:133-139 | A two-slot queue driven through push, push, pop, push, pop, pop reads past its block as written, and yields the pushed elements in order when corrected |
| Ring.PushAll | SoulEngine/Source/UtilsLib/Containers/Queue.h:141-159 | Pushing a sequence appends it to the contents |
| Ring.PopN | SoulEngine/Source/UtilsLib/Containers/Queue.h:133-139 | n successive pops return the first n elements |
| Ring.Fifo | SoulEngine/Source/TestsLib/Tests/QueueTests.cpp:28-39 | Filling a fresh queue and draining it returns the elements in push order |
| Ring.Move | SoulEngine/Source/UtilsLib/Containers/Queue.h:97-124 | Corrected move: the destination takes the queue, and the source is a valid empty queue that refuses pushes |
| Ring.MoveAsWritten | SoulEngine/Source/UtilsLib/Containers/Queue.h:97-124 | Written move: the source loses its block and its head, tail and length, but keeps its capacity |
| Ring.MovedFromQueueAcceptsPush | SoulEngine/Source/UtilsLib/Containers/Queue.h:141-147 | After the written move, the source's push check passes although the source has no block to write to |
| Growable.New | SoulEngine/Source/UtilsLib/Containers/Vector.h:81-88 | A new vector is valid and empty, with the given capacity |
| Growable.Resize | SoulEngine/Source/UtilsLib/Containers/Vector.h:180-196 | Growth to twice the capacity plus one keeps the elements and the first capacity-many slots |
| Growable.Push | SoulEngine/Source/UtilsLib/Containers/Vector.h:128-148 | The element is appended; the capacity grows to 2c+1 exactly when the vector was full |
| Growable.Pop | SoulEngine/Source/UtilsLib/Containers/Vector.h:150-156 | The last element is returned and removing it leaves the rest |
| Growable.Get | SoulEngine/Source/UtilsLib/Containers/Vector.h:112-126 | Index i reads the i-th element, for every stored index |
| Growable.GetAsWritten | SoulEngine/Source/UtilsLib/Containers/Vector.h:112-126 | The written operator reads the same element, for the indices its bound accepts |
| Growable.Remove | SoulEngine/Source/UtilsLib/Containers/Vector.h:158-172 | The element at i is dropped, the elements before stay, the later ones shift down one place, and the capacity is kept |
| Growable.RemoveAsWritten | SoulEngine/Source/UtilsLib/Containers/Vector.h:158-172 | The written Remove does the same, for the indices its bound accepts |
| Growable.FirstElementUnreachable | SoulEngine/Source/UtilsLib/Containers/Vector.h:114-115 | On a non-empty vector the written bound rejects index 0 and accepts every other stored index, while the corrected operations read and remove element 0 |
| Growable.PushAll | SoulEngine/Source/UtilsLib/Containers/Vector.h:128-148 | Pushing a sequence appends it, whatever the starting capacity |
| Growable.PopN | SoulEngine/Source/UtilsLib/Containers/Vector.h:150-156 | n successive pops return the last n elements in reverse order |
| Growable.Lifo | SoulEngine/Source/TestsLib/Tests/VectorTests.cpp:30-43 | Pushing a sequence onto a fresh vector and popping it all returns the sequence reversed |
| Growable.Move | SoulEngine/Source/UtilsLib/Containers/Vector.h:90-110 | The destination takes the vector and the source is left empty with capacity 0 |
| Growable.MovedFromVectorReusable | SoulEngine/Source/UtilsLib/Containers/Vector.h:90-110 | With `Resize` read as a fresh block and a copy: a moved-from vector grows to one slot on its first push and holds just that element |

## Left out

- Byte contents are not modelled: `malloc`/`free`, the `memset` zero fill, and the `memcpy` payload copies of `MoveHandle`, `Vector::Resize` and `Vector::Remove`. Placement construction and destructor calls are not modelled either. Blocks are modelled by offset, size and element count, and container elements are abstract values. The zero fill of a new block is a property of its bytes and does not appear.
- The overlapping `memcpy` in `MoveHandle` and `Vector::Remove` is modelled as the move the code intends. Whether the C library copies overlapping regions correctly is outside the model.
- The size of a `Handle` record and `sizeof(T)` are parameters (`handleBytes`, `elemSize`). `ArraySize`, `ByteCount` and the other integer typedefs are unbounded. Wrap-around of `count * sizeof(T)`, of the 32-bit node counter and of the `size_t` arithmetic is not modelled.
- Manager.StartUp: requires the requested size to cover the table; the source subtracts without a check and would wrap.
- Chain.SetupNewHandle: requires a free handle slot, and so do `Chain.FirstFreeSlot`, `Manager.AllocateArray` and `Manager.Allocate`. The source's slot scan (SoulEngine/Source/Memory/MemoryManager.h:293-297, the same loop in the older header) has no bound: with all 512 records live it runs off the end of the table into the addressable block and writes a handle record there. That out-of-table write is not modelled; `Manager.FreeSlotWhileRoom` shows a slot exists whenever fewer than 512 handles are live.
- Manager.StartUpArenaAsWritten: requires the requested size to cover the table twice. For sizes between one and two tables the source reserves `byteSize - table` bytes and then zeroes the whole table at their head (SoulEngine/Source/Memory/MemoryManager.cpp:36-41, 54), writing past the reserved block; that out-of-bounds write is not modelled. `Manager.StartUpOverstatesFreeBytes` carries the same requirement.
- Legacy.StartUpAsWritten: requires the requested size to cover the table twice, for the same reason: between one and two tables the older `StartUp` (SoulEngine/Source/UtilsLib/Memory/MemoryManager.cpp:31-39) zeroes the table past the end of its block, which is not modelled. `Legacy.StartUpOverstatesFreeBytes` carries the same requirement.
- `Shutdown` of the newer snapshot does not free the volatile buffer. The model keeps the volatile state unchanged and does not model the leak.
- `PrintMemory` and all logging are console output and are not modelled.
- The older header declares `AllocateVolatile` and the volatile statics, but the older `MemoryManager.cpp` defines none of them, so any use would not link. Volatile behaviour is modelled from the newer snapshot only.
- `Vector::Resize` calls `UniqueHandle::GetMemory`, which the shown `UniqueHandle` does not declare. Resize is modelled by its evident meaning: a fresh block with the first `capacity` elements copied over.
- Growable.MovedFromVectorReusable: holds of the modelled `Resize` only. In the source, the first push onto a moved-from vector goes through `Resize` (SoulEngine/Source/UtilsLib/Containers/Vector.h:131-133), which calls `GetMemory` (line 193) on the element handle that the move nulled (SoulEngine/Source/UtilsLib/Memory/UniqueHandle.h:76-83, 94-108). Both shown `WeakHandle::GetMemory` bodies read through the handle pointer, so the source evidently dereferences null there. The model does not claim that the source's moved-from vector is reusable.
- Element access (`operator*`, `operator->`, `operator[]`, `GetMemory`) on the wrappers reads memory and is not modelled. `Queue::GetCapacity`/`GetLength` and `Vector::Length` are field reads, visible directly as `capacity` and `length`.
- The containers' calls into the allocator are not modelled: the block a container allocates, frees or moves is abstracted to its element sequence.
- A `WeakHandle` may point at a record that was freed. The source tracks no liveness, so the model keeps only pointer identity and the validity flag.
- `SetImmovable` is modelled on any valid wrapper whose pointer is a table slot, live or not, as the source allows.
- The older `WeakHandle` matches the newer one except for the pin operations, so the `Handles` members model both.
- `SoulEngine/Source/Memory/UniqueHandle.h` is not part of this model; the owner semantics come from the older `UniqueHandle.h`.
- Handles.MoveKeepsOwnership: it speaks of a collection of wrappers moved into an empty slot. Move assignment onto a valid owner frees that owner's block first; that case is covered instead by `Manager.MoveAssign` and `Manager.MoveAssignRestoresBytes`.

## Findings

| source | as written | input that shows it | evidently intended | confidence | as-written member | corrected member |
|---|---|---|---|---|---|---|
| SoulEngine/Source/UtilsLib/Containers/Queue.h:133-139 | `Pop` advances `m_Head` with `++` and never wraps it, although `Push` wraps `m_Tail` | capacity 2: push a, push b, pop, push c, pop, pop; the third pop reads slot 2 of a 2-slot block | head advances modulo the capacity, so the pops return a, b, c | not executed | Ring.PopAsWritten (lemma Ring.PopNeverWraps) | Ring.Pop |
| SoulEngine/Source/UtilsLib/Containers/Vector.h:112-126, 158-172 | `operator[]` and `Remove` assert `index > 0` | a vector holding one element: `v[0]` and `Remove(0)` fail the assert | every index below the length is accepted | not executed | Growable.GetAsWritten, Growable.RemoveAsWritten (lemma Growable.FirstElementUnreachable) | Growable.Get, Growable.Remove |
| SoulEngine/Source/UtilsLib/Memory/UniqueHandle.h:174-181 | `Deallocate` nulls the pointer but leaves the validity flag set, against its documentation at lines 55-59 | allocate, call `Deallocate`, leave scope: the destructor sees a valid wrapper and deallocates through a null pointer | the wrapper becomes invalid and its destructor frees nothing | not executed | Manager.UniqueDeallocateAsWritten (lemma Manager.DeallocateAsWrittenBreaksDestructor) | Manager.UniqueDeallocate |
| SoulEngine/Source/Memory/MemoryManager.cpp:209-212 | on an empty chain `FindFirstFreeMemoryBlock` returns the addressable start without comparing the request with the region | a fresh manager and a request larger than the addressable region: the returned span runs past the end | the empty region is checked like the tail gap, and the request fails | not executed | Chain.FindFirstFreeMemoryBlockAsWritten (lemma Chain.EmptyChainOverrun) | Chain.FindFirstFreeMemoryBlock |
| SoulEngine/Source/Memory/MemoryManager.cpp:36-38 | `StartUp` reserves and ends the region at `byteSize - table`, with the table inside that block, while `GetTotalFreeBytes` reports `byteSize - table - allocated` | a fresh manager reports `byteSize - table` free bytes, but a request of that size does not fit, since only `byteSize - 2*table` bytes are addressable | the reported free bytes are all obtainable (the region ends at `byteSize`) | not executed | Manager.StartUpArenaAsWritten (lemma Manager.StartUpOverstatesFreeBytes) | Manager.StartUp |
| SoulEngine/Source/UtilsLib/Memory/MemoryManager.cpp:31-36 | the older `StartUp` has the same sizing: the region ends at `uiByteSize - table` with the table inside it | a fresh older manager reports `byteSize - table` free bytes, but a request of that size does not fit | the region ends at `byteSize`, so all reported free bytes are obtainable | not executed | Legacy.StartUpAsWritten (lemma Legacy.StartUpOverstatesFreeBytes) | Legacy.StartUp |
| SoulEngine/Source/UtilsLib/Containers/Queue.h:97-124 | the move constructor and move assignment reset head, tail and length but keep the source's capacity, while its block moves away | move a queue of capacity 2, then push onto the source: the length check passes and the push writes through the null block | the moved-from queue has capacity 0, so its push check fails | not executed | Ring.MoveAsWritten (lemma Ring.MovedFromQueueAcceptsPush) | Ring.Move |
