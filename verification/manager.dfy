/** The memory manager singleton of the newer snapshot: start-up and
    shut-down, allocation through owning `UniqueHandle`s, deallocation,
    defragmentation, and the relocatable flag `WeakHandle` exposes. */
module Manager {
  import opened Arena
  import opened Chain
  import opened Defrag
  import opened Handles
  import V = VolatileMemory

  /** The manager state: whether `StartUp` has run, the main arena and the
      volatile storage. */
  datatype Manager = Manager(isSetup: bool, arena: Arena, vol: V.Volatile)

  /** What the manager keeps true between calls. */
  predicate Invariant(m: Manager) {
    (m.isSetup ==> Valid(m.arena)) && V.Valid(m.vol)
  }

  /** The arena fields before `StartUp` and after `Shutdown`: no table, no
      chain, null bounds, zero size. */
  const NoArena: Arena := Arena([], [], 0, 0, 0)

  /** The zero-initialised statics before the first `StartUp`. */
  const Initial: Manager := Manager(false, NoArena, V.Volatile(0, 0, 0, []))

  /** Bytes the handle table takes when one record is `handleBytes` wide. */
  function TableBytes(handleBytes: nat): nat {
    TableLength * handleBytes
  }

  /** An empty arena: a zeroed table, no chain. */
  function EmptyArena(addrStart: nat, memEnd: nat, memorySize: nat): (a: Arena)
    requires addrStart <= memEnd <= addrStart + memorySize
    ensures Valid(a) && |a.chain| == 0 && AllocatedBytes(a) == 0 && CountFragments(a) == 0
    ensures forall s :: 0 <= s < |a.table| ==> a.table[s] == ZeroRecord
  {
    Arena(seq(TableLength, _ => ZeroRecord), [], addrStart, memEnd, memorySize)
  }

  /** `StartUp(byteSize, volatileByteSize)` with the intended sizing: the
      reserved block is `byteSize` bytes, the table sits at its head, and the
      addressable region runs from the end of the table to the end of the
      block, so the reported memory size is exactly the addressable size. */
  function StartUp(m: Manager, byteSize: nat, volatileByteSize: nat, handleBytes: nat): (r: Manager)
    requires !m.isSetup
    requires TableBytes(handleBytes) <= byteSize
    ensures r.isSetup && Invariant(r)
    ensures |r.arena.chain| == 0 && AllocatedBytes(r.arena) == 0
    ensures forall s :: 0 <= s < |r.arena.table| ==> r.arena.table[s] == ZeroRecord
    ensures r.arena.addrStart == TableBytes(handleBytes) && r.arena.memEnd == byteSize
    ensures FreeBytes(r.arena) == r.arena.memEnd - r.arena.addrStart
    ensures r.vol.size == volatileByteSize && r.vol.next == 0 && r.vol.frameCounter == 0
            && V.AllZero(r.vol.bytes)
  {
    var t := TableBytes(handleBytes);
    Manager(true, EmptyArena(t, byteSize, byteSize - t), V.Fresh(volatileByteSize))
  }

  /** The arena `StartUp` builds as written: it reserves and ends the
      addressable region at `byteSize` minus the table, although the table
      itself sits inside that block. */
  function StartUpArenaAsWritten(byteSize: nat, handleBytes: nat): (a: Arena)
    requires 2 * TableBytes(handleBytes) <= byteSize
    ensures Valid(a) && |a.chain| == 0
    ensures a.addrStart == TableBytes(handleBytes)
    ensures a.memEnd == a.memorySize == byteSize - TableBytes(handleBytes)
  {
    var t := TableBytes(handleBytes);
    EmptyArena(t, byteSize - t, byteSize - t)
  }

  /** With the sizing as written the manager reports the table's size in
      free bytes that no request can obtain: a fresh manager claims
      `byteSize - table` free bytes but cannot place a block that large.
      With the corrected sizing it can. */
  lemma {:induction false} StartUpOverstatesFreeBytes(byteSize: nat, volatileByteSize: nat, handleBytes: nat)
    requires handleBytes > 0 && 2 * TableBytes(handleBytes) <= byteSize
    ensures var a := StartUpArenaAsWritten(byteSize, handleBytes);
            FreeBytes(a) == byteSize - TableBytes(handleBytes)
            && !Fits(a, FreeBytes(a))
    ensures var a := StartUp(Initial, byteSize, volatileByteSize, handleBytes).arena;
            FreeBytes(a) == byteSize - TableBytes(handleBytes)
            && Fits(a, FreeBytes(a))
  {
  }

  /** `Shutdown`: requires a started manager, releases the main block and
      clears the started flag.  The volatile storage is left as it was. */
  function Shutdown(m: Manager): (r: Manager)
    requires m.isSetup
    ensures !r.isSetup && r.vol == m.vol
    ensures r.arena == NoArena
  {
    Manager(false, NoArena, m.vol)
  }

  /** After `Shutdown` the manager can be started again, and the restarted
      main arena is the one a first start would build. */
  lemma {:induction false} RestartIsFresh(m: Manager, byteSize: nat, volatileByteSize: nat, handleBytes: nat)
    requires m.isSetup && TableBytes(handleBytes) <= byteSize
    ensures StartUp(Shutdown(m), byteSize, volatileByteSize, handleBytes)
            == StartUp(Initial, byteSize, volatileByteSize, handleBytes)
  {
  }

  /** The slot indices below `n`. */
  function Below(n: nat): (r: set<nat>)
    ensures forall x: nat :: x in r <==> x < n
    ensures |r| == n
  {
    if n == 0 then {}
    else
      var b := Below(n - 1);
      assert n - 1 !in b;
      b + {n - 1}
  }

  /** A set inside another is no larger. */
  lemma {:induction false} SubsetCard(x: set<nat>, y: set<nat>)
    requires x <= y
    ensures |x| <= |y|
    decreases |y|
  {
    if x != {} {
      var e :| e in x;
      SubsetCard(x - {e}, y - {e});
    }
  }

  /** The slot scan in `SetupNewHandle` has no bound of its own; it finds a
      slot whenever fewer than `TableLength` handles are live. */
  lemma {:induction false} FreeSlotWhileRoom(a: Arena)
    requires Valid(a) && |a.chain| < TableLength
    ensures HasFreeSlot(a.table)
  {
    if !HasFreeSlot(a.table) {
      var all, live := Below(TableLength), Members(a.chain);
      DistinctCard(a.chain);
      forall s | s in all ensures s in live {
        assert a.table[s].isUsed;
      }
      SubsetCard(all, live);
      assert false;
    }
  }

  /** Outcome of `Allocate`/`AllocateArray`: the new manager and the owning
      wrapper, or the out-of-memory outcome (fatal in the original). */
  datatype Grant = Granted(manager: Manager, owner: Wrapper) | Refused

  /** `AllocateArray<T>(count)`: reserve `count * elemSize` bytes through
      `SetupNewHandle` and wrap the new handle in a valid `UniqueHandle`. */
  function AllocateArray(m: Manager, count: nat, elemSize: nat): (r: Grant)
    requires m.isSetup && Invariant(m) && HasFreeSlot(m.arena.table)
    ensures r.Refused? <==> !Fits(m.arena, count * elemSize)
    ensures r.Granted? ==>
              r.manager.isSetup && Invariant(r.manager) && r.manager.vol == m.vol
              && r.owner.isValid && r.owner.handle.Some?
              && r.owner.handle.value in r.manager.arena.chain
              && r.owner.handle.value !in m.arena.chain
              && (forall s :: s in r.manager.arena.chain <==> s == r.owner.handle.value || s in m.arena.chain)
              && (forall s :: 0 <= s < |m.arena.table| && s != r.owner.handle.value ==>
                    r.manager.arena.table[s] == m.arena.table[s])
    ensures r.Granted? ==>
              var rec := r.manager.arena.table[r.owner.handle.value];
              rec.byteSize == count * elemSize && rec.elementCount == count
              && rec.isUsed && rec.isCopyable
    ensures r.Granted? ==>
              AllocatedBytes(r.manager.arena) == AllocatedBytes(m.arena) + count * elemSize
              && |r.manager.arena.chain| == |m.arena.chain| + 1
    ensures r.Granted? ==> SetupNewHandle(m.arena, count, elemSize) == Allocated(r.manager.arena, r.owner.handle.value)
  {
    var s := SetupNewHandle(m.arena, count, elemSize);
    if s.OutOfMemory? then Refused
    else Granted(m.(arena := s.arena), FromHandle(s.slot))
  }

  /** `Allocate<T>(args...)`: one element of `elemSize` bytes. */
  function Allocate(m: Manager, elemSize: nat): (r: Grant)
    requires m.isSetup && Invariant(m) && HasFreeSlot(m.arena.table)
    ensures r.Refused? <==> !Fits(m.arena, elemSize)
    ensures r.Granted? ==>
              r.manager.isSetup && Invariant(r.manager)
              && r.owner.isValid && r.owner.handle.Some?
              && r.owner.handle.value in r.manager.arena.chain
              && r.manager.arena.table[r.owner.handle.value].elementCount == 1
              && AllocatedBytes(r.manager.arena) == AllocatedBytes(m.arena) + elemSize
    ensures r.Granted? ==> SetupNewHandle(m.arena, 1, elemSize) == Allocated(r.manager.arena, r.owner.handle.value)
  {
    AllocateArray(m, 1, elemSize)
  }

  /** Outcome of `Deallocate<T>`: the new manager and how many element
      destructors ran. */
  datatype Freed = Freed(manager: Manager, destroyed: nat)

  /** `Deallocate<T>(handle)`: run the destructor of every element in the
      block, then delete the handle. */
  function Deallocate(m: Manager, slot: nat): (r: Freed)
    requires m.isSetup && Invariant(m) && slot in m.arena.chain
    ensures r.manager.isSetup && Invariant(r.manager) && r.manager.vol == m.vol
    ensures r.destroyed == m.arena.table[slot].elementCount
    ensures slot !in r.manager.arena.chain && r.manager.arena.table[slot] == ZeroRecord
    ensures forall s :: s in r.manager.arena.chain <==> s in m.arena.chain && s != slot
    ensures forall s :: 0 <= s < |m.arena.table| && s != slot ==> r.manager.arena.table[s] == m.arena.table[s]
    ensures AllocatedBytes(r.manager.arena) == AllocatedBytes(m.arena) - m.arena.table[slot].byteSize
  {
    var a := DeleteHandle(m.arena, slot);
    Freed(m.(arena := a), m.arena.table[slot].elementCount)
  }

  /** Whether the `UniqueHandle` destructor can run: an invalid wrapper frees
      nothing, a valid one must point at a live block. */
  predicate Destructible(m: Manager, u: Wrapper) {
    u.isValid ==> m.isSetup && Invariant(m) && u.handle.Some? && u.handle.value in m.arena.chain
  }

  /** `~UniqueHandle`: deallocate exactly when the wrapper is valid. */
  function Destroy(m: Manager, u: Wrapper): (r: Manager)
    requires Invariant(m) && Destructible(m, u)
    ensures Invariant(r)
    ensures !u.isValid ==> r == m
    ensures u.isValid ==>
              r.isSetup && u.handle.value !in r.arena.chain
              && AllocatedBytes(r.arena) == AllocatedBytes(m.arena) - m.arena.table[u.handle.value].byteSize
  {
    if u.isValid then Deallocate(m, u.handle.value).manager else m
  }

  /** The manager and both wrappers after a move assignment. */
  datatype Assigned = Assigned(manager: Manager, wrappers: Pair)

  /** `UniqueHandle` move assignment: free the target's block if the target
      is valid, then take the source's state and leave the source null. */
  function MoveAssign(m: Manager, target: Wrapper, source: Wrapper): (r: Assigned)
    requires Invariant(m) && Destructible(m, target)
    ensures Invariant(r.manager)
    ensures r.wrappers.target == source && r.wrappers.source == Null
    ensures r.manager == Destroy(m, target)
  {
    Assigned(Destroy(m, target), Pair(source, Null))
  }

  /** The manager and the one wrapper an operation on a single owner leaves. */
  datatype Released = Released(manager: Manager, owner: Wrapper)

  /** `UniqueHandle` move assignment from itself (`u = std::move(u)`): the
      target and the source are one wrapper, so the valid block is freed
      first, the wrapper then copies its own state, and the source reset
      leaves it null.  The block is gone and nothing owns anything. */
  function SelfMoveAssign(m: Manager, u: Wrapper): (r: Released)
    requires Invariant(m) && Destructible(m, u)
    ensures Invariant(r.manager) && Own(r.owner) == multiset{} && Destructible(r.manager, r.owner)
    ensures u.isValid ==>
              u.handle.value !in r.manager.arena.chain
              && AllocatedBytes(r.manager.arena) == AllocatedBytes(m.arena) - m.arena.table[u.handle.value].byteSize
    ensures !u.isValid ==> r.manager == m
  {
    Released(Destroy(m, u), Null)
  }

  /** Assigning an owner to itself is not the move onto a distinct empty
      wrapper: a valid owner's block is freed and its pointer lost, where the
      distinct move keeps both. */
  lemma {:induction false} SelfMoveAssignLosesBlock(m: Manager, u: Wrapper)
    requires Invariant(m) && u.isValid && Destructible(m, u)
    ensures var r := SelfMoveAssign(m, u);
            !Same(r.owner, u) && u.handle.value !in r.manager.arena.chain
    ensures var d := MoveAssign(m, Null, u);
            Same(d.wrappers.target, u) && u.handle.value in d.manager.arena.chain
  {
  }

  /** `UniqueHandle::Deallocate` with the invalidation its documentation
      promises: afterwards the wrapper is null and invalid, so its
      destructor frees nothing. */
  function UniqueDeallocate(m: Manager, u: Wrapper): (r: Released)
    requires u.isValid && Destructible(m, u)
    ensures Invariant(r.manager) && r.owner == Null && Own(r.owner) == multiset{}
    ensures Destructible(r.manager, r.owner)
    ensures AllocatedBytes(r.manager.arena) == AllocatedBytes(m.arena) - m.arena.table[u.handle.value].byteSize
  {
    Released(Deallocate(m, u.handle.value).manager, Null)
  }

  /** `UniqueHandle::Deallocate` as written: the pointer is nulled but the
      validity flag stays set. */
  function UniqueDeallocateAsWritten(m: Manager, u: Wrapper): (r: Released)
    requires u.isValid && Destructible(m, u)
    ensures Invariant(r.manager) && r.owner == Wrapper(None, true)
    ensures r.manager == UniqueDeallocate(m, u).manager
  {
    Released(Deallocate(m, u.handle.value).manager, Wrapper(None, true))
  }

  /** After the written `Deallocate` the wrapper is still valid but null, so
      its destructor would dereference the null pointer. */
  lemma {:induction false} DeallocateAsWrittenBreaksDestructor(m: Manager, u: Wrapper)
    requires u.isValid && Destructible(m, u)
    ensures !Destructible(UniqueDeallocateAsWritten(m, u).manager, UniqueDeallocateAsWritten(m, u).owner)
    ensures Destructible(UniqueDeallocate(m, u).manager, UniqueDeallocate(m, u).owner)
  {
  }

  /** Two successive one-element allocations from `m`, both granted. */
  predicate TwoGrants(m: Manager, elemSize: nat, g1: Grant, g2: Grant) {
    m.isSetup && Invariant(m) && HasFreeSlot(m.arena.table)
    && g1 == Allocate(m, elemSize) && g1.Granted? && HasFreeSlot(g1.manager.arena.table)
    && g2 == Allocate(g1.manager, elemSize) && g2.Granted?
  }

  /** The move-assignment scenario: allocate two one-element blocks, move
      the second owner onto the first, let both owners die; the allocated
      bytes are back where they started. */
  lemma {:induction false} MoveAssignRestoresBytes(m: Manager, elemSize: nat, g1: Grant, g2: Grant)
    ensures TwoGrants(m, elemSize, g1, g2) ==>
            Destructible(g2.manager, g1.owner)
            && var ma := MoveAssign(g2.manager, g1.owner, g2.owner);
               !ma.wrappers.source.isValid
               && Destructible(ma.manager, ma.wrappers.target)
               && AllocatedBytes(Destroy(ma.manager, ma.wrappers.target).arena) == AllocatedBytes(m.arena)
  {
    if TwoGrants(m, elemSize, g1, g2) {
      TwoAllocations(m, elemSize, g1, g2);
      FreeTwo(g2.manager, g1.owner, g2.owner);
    }
  }

  /** A one-element allocation owns a live slot of `elemSize` bytes on top
      of the bytes allocated before. */
  lemma {:induction false} OneAllocation(m: Manager, elemSize: nat)
    requires m.isSetup && Invariant(m) && HasFreeSlot(m.arena.table)
    ensures var g := Allocate(m, elemSize);
            g.Granted? ==>
            g.manager.isSetup && Invariant(g.manager) && g.owner.isValid && g.owner.handle.Some?
            && var s, a := g.owner.handle.value, g.manager.arena;
               s in a.chain && a.table[s].byteSize == elemSize
               && AllocatedBytes(a) == AllocatedBytes(m.arena) + elemSize
  {
    assert Allocate(m, elemSize) == AllocateArray(m, 1, elemSize);
  }

  /** Two successive one-element allocations own two distinct live slots of
      `elemSize` bytes each, on top of the bytes allocated before. */
  lemma {:induction false} TwoAllocations(m: Manager, elemSize: nat, g1: Grant, g2: Grant)
    ensures TwoGrants(m, elemSize, g1, g2) ==>
            g2.manager.isSetup && Invariant(g2.manager)
            && g1.owner.isValid && g1.owner.handle.Some? && g2.owner.isValid && g2.owner.handle.Some?
            && var s1, s2, a := g1.owner.handle.value, g2.owner.handle.value, g2.manager.arena;
               s1 != s2 && s1 in a.chain && s2 in a.chain
               && a.table[s1].byteSize == elemSize && a.table[s2].byteSize == elemSize
               && AllocatedBytes(a) == AllocatedBytes(m.arena) + 2 * elemSize
  {
    if TwoGrants(m, elemSize, g1, g2) {
      var s1 := g1.owner.handle.value;
      assert g2 == AllocateArray(g1.manager, 1, elemSize);
      assert g2.manager.arena.table[s1] == g1.manager.arena.table[s1];
      assert g1 == AllocateArray(m, 1, elemSize);
    }
  }

  /** Ending two valid owners of distinct live slots, one after the other,
      takes both blocks' sizes off the allocated bytes. */
  lemma {:induction false} FreeTwo(m: Manager, u1: Wrapper, u2: Wrapper)
    requires m.isSetup && Invariant(m) && u1.isValid && u2.isValid
    requires u1.handle.Some? && u2.handle.Some? && u1.handle.value != u2.handle.value
    requires u1.handle.value in m.arena.chain && u2.handle.value in m.arena.chain
    ensures Destructible(m, u1) && Destructible(Destroy(m, u1), u2)
    ensures AllocatedBytes(Destroy(Destroy(m, u1), u2).arena)
            == AllocatedBytes(m.arena) - m.arena.table[u1.handle.value].byteSize
               - m.arena.table[u2.handle.value].byteSize
  {
    var f := Destroy(m, u1);
    assert f.arena.table[u2.handle.value] == m.arena.table[u2.handle.value];
  }

  /** Two block sequences with the same locations and sizes, record by record. */
  predicate SameShape(xs: seq<Record>, ys: seq<Record>) {
    |xs| == |ys|
    && forall k :: 0 <= k < |xs| ==> xs[k].location == ys[k].location && xs[k].byteSize == ys[k].byteSize
  }

  /** The fragment count reads only locations and sizes. */
  lemma {:induction false} SameShapeFragments(xs: seq<Record>, ys: seq<Record>, prevEnd: nat)
    requires SameShape(xs, ys)
    ensures Fragments(xs, prevEnd) == Fragments(ys, prevEnd)
  {
    if |xs| > 0 {
      assert SameShape(xs[1..], ys[1..]);
      SameShapeFragments(xs[1..], ys[1..], End(xs[0]));
    }
  }

  /** Whether `w` is a valid wrapper over a slot of the started manager's
      table: what `SetImmovable` and `IsImmovable` assert before touching the
      record. */
  predicate Pinnable(m: Manager, w: Wrapper) {
    m.isSetup && Invariant(m) && w.isValid && w.handle.Some? && w.handle.value < |m.arena.table|
  }

  /** `WeakHandle::SetImmovable`: the record's relocatable flag becomes the
      negation of the argument.  Nothing else in the manager changes, so the
      byte and fragment counts are the same. */
  function SetImmovable(m: Manager, w: Wrapper, immovable: bool): (r: Manager)
    requires Pinnable(m, w)
    ensures Pinnable(r, w) && r.vol == m.vol
    ensures r.arena.chain == m.arena.chain && r.arena.addrStart == m.arena.addrStart
            && r.arena.memEnd == m.arena.memEnd && r.arena.memorySize == m.arena.memorySize
    ensures r.arena.table[w.handle.value].isCopyable == !immovable
    ensures forall s :: 0 <= s < |m.arena.table| ==>
              r.arena.table[s] == m.arena.table[s].(isCopyable := r.arena.table[s].isCopyable)
    ensures forall s :: 0 <= s < |m.arena.table| && s != w.handle.value ==> r.arena.table[s] == m.arena.table[s]
    ensures AllocatedBytes(r.arena) == AllocatedBytes(m.arena)
    ensures CountFragments(r.arena) == CountFragments(m.arena)
  {
    var a, slot := m.arena, w.handle.value;
    var b := a.(table := a.table[slot := a.table[slot].(isCopyable := !immovable)]);
    FlagChangeKeepsShape(a, slot, !immovable);
    m.(arena := b)
  }

  /** Changing one record's relocatable flag keeps the arena valid with the
      same blocks up to that flag. */
  lemma {:induction false} FlagChangeKeepsShape(a: Arena, slot: nat, copyable: bool)
    requires Valid(a) && slot < |a.table|
    ensures var b := a.(table := a.table[slot := a.table[slot].(isCopyable := copyable)]);
            Valid(b) && AllocatedBytes(b) == AllocatedBytes(a) && CountFragments(b) == CountFragments(a)
  {
    var b := a.(table := a.table[slot := a.table[slot].(isCopyable := copyable)]);
    var xs, ys := Blocks(a), Blocks(b);
    forall k | 0 <= k < |xs| ensures xs[k].location == ys[k].location && xs[k].byteSize == ys[k].byteSize {
      assert a.chain[k] < |a.table|;
    }
    assert SameShape(xs, ys);
    SameSizesSameSum(xs, ys);
    SameShapeFragments(xs, ys, a.addrStart);
    assert Ordered(ys, b.addrStart, b.memEnd);
    forall s | 0 <= s < |b.table| ensures b.table[s].isUsed <==> s in b.chain {
      assert b.table[s].isUsed == a.table[s].isUsed;
    }
  }

  /** `WeakHandle::IsImmovable`: whether the record is pinned. */
  function IsImmovable(m: Manager, w: Wrapper): (pinned: bool)
    requires Pinnable(m, w)
    ensures pinned <==> !m.arena.table[w.handle.value].isCopyable
  {
    !m.arena.table[w.handle.value].isCopyable
  }

  /** Reading the flag after setting it returns what was set, and setting it
      to what it already reads leaves the manager unchanged. */
  lemma {:induction false} SetThenIsImmovable(m: Manager, w: Wrapper, immovable: bool)
    requires Pinnable(m, w)
    ensures IsImmovable(SetImmovable(m, w, immovable), w) == immovable
    ensures SetImmovable(m, w, IsImmovable(m, w)) == m
  {
    var slot := w.handle.value;
    assert m.arena.table[slot := m.arena.table[slot].(isCopyable := !IsImmovable(m, w))] == m.arena.table;
  }

  /** A block pinned through any wrapper that shares its handle (a weak copy
      of the owning `UniqueHandle`, say) keeps its location and record through
      `Defragment`, whatever the budget. */
  lemma {:induction false} PinnedBlockStays(m: Manager, owner: Wrapper, blockCount: nat)
    requires Pinnable(m, owner) && blockCount < 256
    ensures var weak := Copy(owner).target;
            var p := SetImmovable(m, weak, true);
            Same(weak, owner)
            && Defragment(p.arena, blockCount).table[owner.handle.value] == p.arena.table[owner.handle.value]
            && p.arena.table[owner.handle.value].location == m.arena.table[owner.handle.value].location
  {
  }

  /** The detach scenario: allocate one element, detach the pointer into a
      second owner, let both owners die.  The detached owner is invalid and
      frees nothing, the second frees the block, and the allocated bytes are
      back where they started. */
  lemma {:induction false} DetachHandsOverOwnership(m: Manager, elemSize: nat)
    requires m.isSetup && Invariant(m) && HasFreeSlot(m.arena.table)
    ensures var g := Allocate(m, elemSize);
            g.Granted? ==>
            var d := Detach(g.owner);
            var second := FromHandle(d.handle.value);
            !d.wrapper.isValid && Same(second, g.owner)
            && Destructible(g.manager, second)
            && Destroy(Destroy(g.manager, second), d.wrapper) == Destroy(g.manager, second)
            && AllocatedBytes(Destroy(g.manager, second).arena) == AllocatedBytes(m.arena)
  {
  }

  /** The deallocate scenario: allocating one element adds its size to the
      allocated bytes, `Deallocate` on the owner takes it back, and the
      owner's destructor afterwards frees nothing more. */
  lemma {:induction false} UniqueDeallocateRestoresBytes(m: Manager, elemSize: nat)
    requires m.isSetup && Invariant(m) && HasFreeSlot(m.arena.table)
    ensures var g := Allocate(m, elemSize);
            g.Granted? ==>
            AllocatedBytes(g.manager.arena) == AllocatedBytes(m.arena) + elemSize
            && var d := UniqueDeallocate(g.manager, g.owner);
               AllocatedBytes(d.manager.arena) == AllocatedBytes(m.arena)
               && Destroy(d.manager, d.owner) == d.manager
  {
    OneAllocation(m, elemSize);
  }

  /** The weak-handle scenario: a `WeakHandle` built from the owner refers to
      the same live block; its end frees nothing, and the owner's end frees
      the block, restoring the allocated bytes. */
  lemma {:induction false} WeakViewDoesNotOwn(m: Manager, elemSize: nat)
    requires m.isSetup && Invariant(m) && HasFreeSlot(m.arena.table)
    ensures var g := Allocate(m, elemSize);
            g.Granted? ==>
            var weak := Copy(g.owner);
            weak.source == g.owner && Same(weak.target, g.owner) && weak.target.handle.value in g.manager.arena.chain
            && Destructible(g.manager, weak.source)
            && AllocatedBytes(Destroy(g.manager, weak.source).arena) == AllocatedBytes(m.arena)
  {
  }
}
