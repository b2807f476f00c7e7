/** First-fit search, handle creation and handle deletion: the parts of the
    memory manager that change the shape of the chain. */
module Chain {
  import opened Arena

  /** Bytes between the end of block `k` and the start of its successor, or
      the end of the addressable region when `k` is the tail.  The gap before
      the first block is not one of these: the search never looks at it. */
  function GapAfter(bs: seq<Record>, k: nat, hi: nat): int
    requires k < |bs|
  {
    (if k + 1 < |bs| then bs[k + 1].location else hi) - End(bs[k])
  }

  /** Outcome of the free-block search: the first byte of the span and the
      chain position of the block it follows (none when the chain is empty). */
  datatype Fit = Found(address: nat, after: Option<nat>) | NoSpace

  /** The search loop, from chain position `k` on. */
  function ScanGaps(bs: seq<Record>, k: nat, size: nat, hi: nat): (r: Fit)
    requires k < |bs|
    ensures r.Found? ==> r.after.Some? && k <= r.after.value < |bs|
    ensures r.Found? ==> r.address == End(bs[r.after.value])
                         && GapAfter(bs, r.after.value, hi) >= size
                         && forall j :: k <= j < r.after.value ==> GapAfter(bs, j, hi) < size
    ensures r.NoSpace? ==> forall j :: k <= j < |bs| ==> GapAfter(bs, j, hi) < size
    decreases |bs| - k
  {
    if GapAfter(bs, k, hi) >= size then Found(End(bs[k]), Some(k))
    else if k + 1 < |bs| then ScanGaps(bs, k + 1, size, hi)
    else NoSpace
  }

  /** Whether a request of `size` bytes can be placed: in the whole region
      when nothing is allocated, otherwise in a gap behind some live block. */
  predicate Fits(a: Arena, size: nat) {
    if |a.chain| == 0 then size <= a.memEnd - a.addrStart
    else exists j :: 0 <= j < |a.chain| && GapAfter(Blocks(a), j, a.memEnd) >= size
  }

  /** The span `[address, address + size)` is inside the addressable region
      and overlaps no live block. */
  predicate FreeSpan(a: Arena, address: nat, size: nat) {
    a.addrStart <= address && address + size <= a.memEnd
    && forall k :: 0 <= k < |a.chain| ==>
         End(Blocks(a)[k]) <= address || address + size <= Blocks(a)[k].location
  }

  /** A span that starts at the end of block `k` and fits in the gap behind it is free. */
  lemma {:induction false} GapIsFree(a: Arena, k: nat, size: nat)
    requires Valid(a)
    requires k < |a.chain|
    requires GapAfter(Blocks(a), k, a.memEnd) >= size
    ensures FreeSpan(a, End(Blocks(a)[k]), size)
  {
    var bs := Blocks(a);
    forall i | 0 <= i < |a.chain|
      ensures End(bs[i]) <= End(bs[k]) || End(bs[k]) + size <= bs[i].location
    {
      if i < k {
        OrderedDisjoint(bs, a.addrStart, a.memEnd, i, k);
      } else if i > k {
        if i > k + 1 {
          OrderedDisjoint(bs, a.addrStart, a.memEnd, k + 1, i);
        }
      }
    }
  }

  /** `FindFirstFreeMemoryBlock` with the size check on the empty chain that
      the original omits (see `FindFirstFreeMemoryBlockAsWritten`). */
  function FindFirstFreeMemoryBlock(a: Arena, size: nat): (r: Fit)
    requires Valid(a)
    ensures r.Found? <==> Fits(a, size)
    ensures r.Found? ==> FreeSpan(a, r.address, size)
    ensures r.Found? && r.after.None? ==> |a.chain| == 0 && r.address == a.addrStart
    ensures r.Found? && r.after.Some? ==>
              r.after.value < |a.chain|
              && r.address == End(Blocks(a)[r.after.value])
              && forall j :: 0 <= j < r.after.value ==> GapAfter(Blocks(a), j, a.memEnd) < size
  {
    if |a.chain| == 0 then
      if size <= a.memEnd - a.addrStart then Found(a.addrStart, None) else NoSpace
    else
      var r := ScanGaps(Blocks(a), 0, size, a.memEnd);
      if r.Found? then
        GapIsFree(a, r.after.value, size);
        r
      else
        r
  }

  /** `FindFirstFreeMemoryBlock` exactly as written: an empty chain yields the
      addressable start whatever the request. */
  function FindFirstFreeMemoryBlockAsWritten(a: Arena, size: nat): (r: Fit)
    requires Valid(a)
    ensures |a.chain| == 0 ==> r == Found(a.addrStart, None)
    ensures |a.chain| > 0 ==> r == FindFirstFreeMemoryBlock(a, size)
  {
    if |a.chain| == 0 then Found(a.addrStart, None)
    else ScanGaps(Blocks(a), 0, size, a.memEnd)
  }

  /** On an empty chain the original hands out a span that runs past the end
      of the addressable region when the request is larger than the region. */
  lemma {:induction false} EmptyChainOverrun(a: Arena, size: nat)
    requires Valid(a) && |a.chain| == 0
    requires size > a.memEnd - a.addrStart
    ensures FindFirstFreeMemoryBlockAsWritten(a, size).Found?
    ensures !FreeSpan(a, FindFirstFreeMemoryBlockAsWritten(a, size).address, size)
    ensures FindFirstFreeMemoryBlock(a, size).NoSpace?
  {
  }

  predicate HasFreeSlot(table: seq<Record>) {
    exists s :: 0 <= s < |table| && !table[s].isUsed
  }

  /** The handle-slot scan from `i` on: the lowest unclaimed slot. */
  function FreeSlotFrom(table: seq<Record>, i: nat): (r: nat)
    requires exists s :: i <= s < |table| && !table[s].isUsed
    ensures i <= r < |table| && !table[r].isUsed
    ensures forall s :: i <= s < r ==> table[s].isUsed
    decreases |table| - i
  {
    if !table[i].isUsed then i else FreeSlotFrom(table, i + 1)
  }

  function FirstFreeSlot(table: seq<Record>): (r: nat)
    requires HasFreeSlot(table)
    ensures r < |table| && !table[r].isUsed
    ensures forall s :: 0 <= s < r ==> table[s].isUsed
  {
    FreeSlotFrom(table, 0)
  }

  /** Result of creating a handle: the new arena and the claimed slot, or
      the out-of-memory outcome (fatal in the original). */
  datatype Allocation = Allocated(arena: Arena, slot: nat) | OutOfMemory

  /** The arena after linking `slot`, holding `rec`, at chain position `pos`. */
  function Insert(a: Arena, slot: nat, rec: Record, pos: nat): Arena
    requires slot < |a.table| && pos <= |a.chain|
  {
    a.(table := a.table[slot := rec], chain := a.chain[..pos] + [slot] + a.chain[pos..])
  }

  lemma {:induction false} InsertChain(c: seq<nat>, slot: nat, pos: nat)
    requires pos <= |c|
    ensures var c' := c[..pos] + [slot] + c[pos..];
            |c'| == |c| + 1 && c'[pos] == slot
            && (forall k :: 0 <= k < pos ==> c'[k] == c[k])
            && (forall k :: pos < k < |c'| ==> c'[k] == c[k - 1])
            && (forall x :: x in c' <==> x == slot || x in c)
            && (Distinct(c) && slot !in c ==> Distinct(c'))
  {
    var c' := c[..pos] + [slot] + c[pos..];
    forall x | x in c ensures x in c' {
      var i :| 0 <= i < |c| && c[i] == x;
      if i < pos { assert c'[i] == x; } else { assert c'[i + 1] == x; }
    }
    if Distinct(c) && slot !in c {
      forall i, j | 0 <= i < j < |c'| ensures c'[i] != c'[j] {
        if i != pos && j != pos {
          var ci := if i < pos then i else i - 1;
          var cj := if j < pos then j else j - 1;
          assert c'[i] == c[ci] && c'[j] == c[cj];
        }
      }
    }
  }

  lemma {:induction false} OrderedInsert(bs: seq<Record>, lo: nat, hi: nat, pos: nat, rec: Record)
    requires Ordered(bs, lo, hi) && pos <= |bs|
    requires lo <= rec.location && End(rec) <= hi
    requires pos > 0 ==> End(bs[pos - 1]) <= rec.location
    requires pos < |bs| ==> End(rec) <= bs[pos].location
    ensures Ordered(bs[..pos] + [rec] + bs[pos..], lo, hi)
  {
    var n := bs[..pos] + [rec] + bs[pos..];
    forall k | 0 < k < |n| ensures End(n[k - 1]) <= n[k].location {
      if k < pos {
        assert n[k - 1] == bs[k - 1] && n[k] == bs[k];
      } else if k > pos + 1 {
        assert n[k - 1] == bs[k - 2] && n[k] == bs[k - 1];
      }
    }
  }

  /** Inserting a slot that is not in the chain inserts its record into the blocks. */
  lemma {:induction false} BlocksAfterInsert(a: Arena, slot: nat, rec: Record, pos: nat)
    requires (forall k :: 0 <= k < |a.chain| ==> a.chain[k] < |a.table|)
    requires slot < |a.table| && slot !in a.chain
    requires pos <= |a.chain|
    ensures Blocks(Insert(a, slot, rec, pos)) == Blocks(a)[..pos] + [rec] + Blocks(a)[pos..]
  {
    var a' := Insert(a, slot, rec, pos);
    InsertChain(a.chain, slot, pos);
    var bs := Blocks(a);
    var want := bs[..pos] + [rec] + bs[pos..];
    forall k | 0 <= k < |a'.chain|
      ensures Blocks(a')[k] == want[k]
    {
      if k < pos {
        assert a'.chain[k] == a.chain[k];
      } else if k > pos {
        assert a'.chain[k] == a.chain[k - 1];
      }
    }
  }

  /** Inserting one record into a block sequence adds its size to the sum. */
  lemma {:induction false} SumInsert(bs: seq<Record>, pos: nat, rec: Record)
    requires pos <= |bs|
    ensures SumSizes(bs[..pos] + [rec] + bs[pos..]) == SumSizes(bs) + rec.byteSize
  {
    var x, y := bs[..pos], bs[pos..];
    assert SumSizes([rec]) == rec.byteSize by {
      assert [rec][1..] == [];
    }
    assert SumSizes(x + [rec] + y) == SumSizes(x + [rec]) + SumSizes(y) by {
      SumSizesConcat(x + [rec], y);
    }
    assert SumSizes(x + [rec]) == SumSizes(x) + SumSizes([rec]) by {
      SumSizesConcat(x, [rec]);
    }
    assert SumSizes(bs) == SumSizes(x) + SumSizes(y) by {
      assert x + y == bs;
      SumSizesConcat(x, y);
    }
  }

  /** Linking an unused slot keeps the chain's slots in range and keeps
      the chain equal to the set of used slots. */
  lemma {:induction false} InsertKeepsSlots(a: Arena, slot: nat, rec: Record, pos: nat)
    requires forall k :: 0 <= k < |a.chain| ==> a.chain[k] < |a.table|
    requires forall s :: 0 <= s < |a.table| ==> (a.table[s].isUsed <==> s in a.chain)
    requires slot < |a.table| && slot !in a.chain && rec.isUsed && pos <= |a.chain|
    ensures var a' := Insert(a, slot, rec, pos);
            (forall k :: 0 <= k < |a'.chain| ==> a'.chain[k] < |a'.table|)
            && (forall s :: 0 <= s < |a'.table| ==> (a'.table[s].isUsed <==> s in a'.chain))
  {
    var a' := Insert(a, slot, rec, pos);
    InsertChain(a.chain, slot, pos);
    forall k | 0 <= k < |a'.chain| ensures a'.chain[k] < |a'.table| {
      if k > pos { assert a'.chain[k] == a.chain[k - 1]; }
    }
    forall s | 0 <= s < |a'.table| ensures a'.table[s].isUsed <==> s in a'.chain {
      if s != slot {
        assert a'.table[s] == a.table[s];
      }
    }
  }

  /** The insertion `SetupNewHandle` performs keeps the arena invariant and
      adds exactly the new block's size to the allocated bytes. */
  lemma {:induction false} InsertKeepsValid(a: Arena, slot: nat, rec: Record, pos: nat)
    requires Valid(a)
    requires slot < |a.table| && !a.table[slot].isUsed
    requires rec.isUsed && pos <= |a.chain|
    requires a.addrStart <= rec.location && End(rec) <= a.memEnd
    requires pos > 0 ==> End(Blocks(a)[pos - 1]) <= rec.location
    requires pos < |a.chain| ==> End(rec) <= Blocks(a)[pos].location
    ensures Valid(Insert(a, slot, rec, pos))
    ensures AllocatedBytes(Insert(a, slot, rec, pos)) == AllocatedBytes(a) + rec.byteSize
  {
    var a' := Insert(a, slot, rec, pos);
    var bs := Blocks(a);
    assert slot !in a.chain;
    InsertChain(a.chain, slot, pos);
    InsertKeepsSlots(a, slot, rec, pos);
    BlocksAfterInsert(a, slot, rec, pos);
    OrderedInsert(bs, a.addrStart, a.memEnd, pos, rec);
    SumInsert(bs, pos, rec);
  }

  /** `SetupNewHandle`: place `count` elements of `elemSize` bytes at the
      first fitting span, claim the lowest unused slot, and link it right
      after the block the search returned (or as the head). */
  function SetupNewHandle(a: Arena, count: nat, elemSize: nat): (r: Allocation)
    requires Valid(a) && HasFreeSlot(a.table)
    ensures r.OutOfMemory? <==> !Fits(a, count * elemSize)
    ensures r.Allocated? ==> Valid(r.arena)
    ensures r.Allocated? ==> r.slot < |a.table| && !a.table[r.slot].isUsed && forall s :: 0 <= s < r.slot ==> a.table[s].isUsed
    ensures r.Allocated? ==>
              var rec := r.arena.table[r.slot];
              rec.byteSize == count * elemSize && rec.elementCount == count
              && rec.isUsed && rec.isCopyable
              && FreeSpan(a, rec.location, count * elemSize)
    ensures r.Allocated? ==> forall s :: 0 <= s < |a.table| && s != r.slot ==> r.arena.table[s] == a.table[s]
    ensures r.Allocated? ==> exists pos :: 0 <= pos <= |a.chain| && r.arena == Insert(a, r.slot, r.arena.table[r.slot], pos)
    ensures r.Allocated? ==> AllocatedBytes(r.arena) == AllocatedBytes(a) + count * elemSize
    ensures r.Allocated? ==> |r.arena.chain| == |a.chain| + 1
    ensures r.Allocated? ==> forall s :: s in r.arena.chain <==> s == r.slot || s in a.chain
    ensures r.Allocated? ==>
              var fit := FindFirstFreeMemoryBlock(a, count * elemSize);
              fit.Found? && r.slot == FirstFreeSlot(a.table)
              && r.arena == Insert(a, r.slot, Record(fit.address, count * elemSize, count, true, true),
                                   if fit.after.Some? then fit.after.value + 1 else 0)
  {
    var size := count * elemSize;
    var fit := FindFirstFreeMemoryBlock(a, size);
    if fit.NoSpace? then OutOfMemory
    else
      var slot := FirstFreeSlot(a.table);
      var pos := if fit.after.Some? then fit.after.value + 1 else 0;
      var rec := Record(fit.address, size, count, true, true);
      SetupKeepsValid(a, fit, size, slot, rec, pos);
      InsertChain(a.chain, slot, pos);
      Allocated(Insert(a, slot, rec, pos), slot)
  }

  lemma {:induction false} SetupKeepsValid(a: Arena, fit: Fit, size: nat, slot: nat, rec: Record, pos: nat)
    requires Valid(a) && fit == FindFirstFreeMemoryBlock(a, size) && fit.Found?
    requires slot < |a.table| && !a.table[slot].isUsed
    requires rec.location == fit.address && rec.byteSize == size && rec.isUsed
    requires pos == if fit.after.Some? then fit.after.value + 1 else 0
    ensures pos <= |a.chain|
    ensures Valid(Insert(a, slot, rec, pos))
    ensures AllocatedBytes(Insert(a, slot, rec, pos)) == AllocatedBytes(a) + size
  {
    var bs := Blocks(a);
    if pos < |a.chain| {
      assert End(rec) <= bs[pos].location;
    }
    InsertKeepsValid(a, slot, rec, pos);
  }

  /** Position of a live slot in the chain, found by the predecessor walk. */
  function IndexOf(chain: seq<nat>, slot: nat): (p: nat)
    requires slot in chain
    ensures p < |chain| && chain[p] == slot
    ensures forall j :: 0 <= j < p ==> chain[j] != slot
  {
    if chain[0] == slot then 0 else 1 + IndexOf(chain[1..], slot)
  }

  /** The arena after unlinking chain position `p` and zeroing `slot`. */
  function Unlink(a: Arena, slot: nat, p: nat): Arena
    requires slot < |a.table| && p < |a.chain|
  {
    a.(table := a.table[slot := ZeroRecord], chain := a.chain[..p] + a.chain[p + 1..])
  }

  lemma {:induction false} RemoveChain(c: seq<nat>, p: nat)
    requires p < |c| && Distinct(c)
    ensures var c' := c[..p] + c[p + 1..];
            |c'| == |c| - 1
            && (forall k :: 0 <= k < p ==> c'[k] == c[k])
            && (forall k :: p <= k < |c'| ==> c'[k] == c[k + 1])
            && (forall x :: x in c' <==> x != c[p] && x in c)
            && Distinct(c')
  {
    var c' := c[..p] + c[p + 1..];
    forall x | x in c && x != c[p] ensures x in c' {
      var i :| 0 <= i < |c| && c[i] == x;
      if i < p { assert c'[i] == x; } else { assert c'[i - 1] == x; }
    }
    forall k | 0 <= k < |c'| ensures c'[k] != c[p] {
      if k < p { assert c'[k] == c[k]; } else { assert c'[k] == c[k + 1]; }
    }
    forall i, j | 0 <= i < j < |c'| ensures c'[i] != c'[j] {
      var ci := if i < p then i else i + 1;
      var cj := if j < p then j else j + 1;
      assert c'[i] == c[ci] && c'[j] == c[cj];
    }
  }

  lemma {:induction false} OrderedRemove(bs: seq<Record>, lo: nat, hi: nat, p: nat)
    requires Ordered(bs, lo, hi) && p < |bs|
    ensures Ordered(bs[..p] + bs[p + 1..], lo, hi)
  {
    var n := bs[..p] + bs[p + 1..];
    forall k | 0 < k < |n| ensures End(n[k - 1]) <= n[k].location {
      if k < p {
        assert n[k - 1] == bs[k - 1] && n[k] == bs[k];
      } else if k == p {
        assert n[k - 1] == bs[k - 1] && n[k] == bs[k + 1];
        OrderedDisjoint(bs, lo, hi, k - 1, k + 1);
      } else {
        assert n[k - 1] == bs[k] && n[k] == bs[k + 1];
      }
    }
  }

  lemma {:induction false} BlocksAfterUnlink(a: Arena, slot: nat, p: nat)
    requires (forall k :: 0 <= k < |a.chain| ==> a.chain[k] < |a.table|)
    requires Distinct(a.chain) && p < |a.chain| && a.chain[p] == slot && slot < |a.table|
    ensures Blocks(Unlink(a, slot, p)) == Blocks(a)[..p] + Blocks(a)[p + 1..]
  {
    var r := Unlink(a, slot, p);
    var bs := Blocks(a);
    var nbs := bs[..p] + bs[p + 1..];
    RemoveChain(a.chain, p);
    forall k | 0 <= k < |r.chain| ensures Blocks(r)[k] == nbs[k] {
      if k < p { assert r.chain[k] == a.chain[k]; }
      else { assert r.chain[k] == a.chain[k + 1]; }
    }
  }

  lemma {:induction false} SumAfterRemove(bs: seq<Record>, p: nat)
    requires p < |bs|
    ensures SumSizes(bs[..p] + bs[p + 1..]) == SumSizes(bs) - bs[p].byteSize
  {
    SumSizesConcat(bs[..p], bs[p + 1..]);
    SumSizesConcat(bs[..p], bs[p..]);
    assert bs[p..] == [bs[p]] + bs[p + 1..];
    assert bs[..p] + bs[p..] == bs;
  }

  lemma {:induction false} UnlinkKeepsValid(a: Arena, slot: nat, p: nat)
    requires Valid(a) && p < |a.chain| && a.chain[p] == slot
    ensures Valid(Unlink(a, slot, p)) && slot !in Unlink(a, slot, p).chain
    ensures Blocks(Unlink(a, slot, p)) == Blocks(a)[..p] + Blocks(a)[p + 1..]
    ensures AllocatedBytes(Unlink(a, slot, p)) == AllocatedBytes(a) - a.table[slot].byteSize
  {
    var r := Unlink(a, slot, p);
    var bs := Blocks(a);
    RemoveChain(a.chain, p);
    BlocksAfterUnlink(a, slot, p);
    OrderedRemove(bs, a.addrStart, a.memEnd, p);
    assert Ordered(Blocks(r), r.addrStart, r.memEnd);
    forall k | 0 <= k < |r.chain| ensures r.chain[k] < |r.table| {
      if k >= p { assert r.chain[k] == a.chain[k + 1]; }
    }
    forall s | 0 <= s < |r.table| ensures r.table[s].isUsed <==> s in r.chain {
      if s != slot {
        assert r.table[s] == a.table[s];
      }
    }
    SumAfterRemove(bs, p);
  }

  /** `DeleteHandle`: unlink the record (through the head or its
      predecessor) and zero its slot. */
  function DeleteHandle(a: Arena, slot: nat): (r: Arena)
    requires Valid(a) && slot in a.chain
    ensures Valid(r)
    ensures slot !in r.chain && r.table[slot] == ZeroRecord
    ensures exists p :: 0 <= p < |a.chain| && a.chain[p] == slot && r == Unlink(a, slot, p)
    ensures forall s :: 0 <= s < |a.table| && s != slot ==> r.table[s] == a.table[s]
    ensures AllocatedBytes(r) == AllocatedBytes(a) - a.table[slot].byteSize
    ensures |r.chain| == |a.chain| - 1
    ensures forall s :: s in r.chain <==> s in a.chain && s != slot
  {
    var p := IndexOf(a.chain, slot);
    UnlinkKeepsValid(a, slot, p);
    RemoveChain(a.chain, p);
    Unlink(a, slot, p)
  }

  lemma {:induction false} InsertThenUnlink(a: Arena, slot: nat, rec: Record, pos: nat)
    requires slot < |a.table| && pos <= |a.chain|
    ensures Unlink(Insert(a, slot, rec, pos), slot, pos) == a.(table := a.table[slot := ZeroRecord])
  {
    var c := a.chain;
    var c' := c[..pos] + [slot] + c[pos..];
    assert c'[..pos] == c[..pos];
    assert c'[pos + 1..] == c[pos..];
    assert c[..pos] + c[pos..] == c;
  }

  /** Zeroing a slot outside the chain leaves the blocks alone. */
  lemma {:induction false} ZeroOutsideChain(a: Arena, slot: nat)
    requires slot < |a.table| && slot !in a.chain
    ensures Blocks(a.(table := a.table[slot := ZeroRecord])) == Blocks(a)
  {
    var d := a.(table := a.table[slot := ZeroRecord]);
    forall k | 0 <= k < |a.chain| ensures Blocks(d)[k] == Blocks(a)[k] {
      assert a.chain[k] != slot;
    }
  }

  /** Deleting a freshly inserted slot gives back the arena it was inserted
      into, with that slot zeroed. */
  lemma {:induction false} DeleteUndoesInsert(a: Arena, slot: nat, rec: Record, pos: nat)
    requires slot < |a.table| && slot !in a.chain && pos <= |a.chain|
    requires Valid(Insert(a, slot, rec, pos))
    ensures DeleteHandle(Insert(a, slot, rec, pos), slot) == a.(table := a.table[slot := ZeroRecord])
  {
    var i := Insert(a, slot, rec, pos);
    var d := DeleteHandle(i, slot);
    InsertChain(a.chain, slot, pos);
    var p :| 0 <= p < |i.chain| && i.chain[p] == slot && d == Unlink(i, slot, p);
    assert p == pos;
    InsertThenUnlink(a, slot, rec, pos);
  }

  /** Zeroing a slot that is not on the chain changes no block. */
  lemma {:induction false} ZeroingUnchainedSlot(a: Arena, slot: nat)
    requires slot < |a.table| && slot !in a.chain
    ensures var z := a.(table := a.table[slot := ZeroRecord]);
            z.chain == a.chain && Blocks(z) == Blocks(a)
            && AllocatedBytes(z) == AllocatedBytes(a)
            && (a.table[slot] == ZeroRecord ==> z == a)
  {
    ZeroOutsideChain(a, slot);
    if a.table[slot] == ZeroRecord {
      assert a.table[slot := ZeroRecord] == a.table;
    }
  }

  /** Deleting the handle just created restores the chain, the blocks and the
      allocated bytes; the whole arena when the claimed slot was zeroed. */
  lemma {:induction false} SetupThenDeleteRoundTrip(a: Arena, count: nat, elemSize: nat)
    requires Valid(a) && HasFreeSlot(a.table)
    ensures var r := SetupNewHandle(a, count, elemSize);
            r.Allocated? ==>
            var d := DeleteHandle(r.arena, r.slot);
            d.chain == a.chain && Blocks(d) == Blocks(a)
            && AllocatedBytes(d) == AllocatedBytes(a)
            && (a.table[r.slot] == ZeroRecord ==> d == a)
  {
    var r := SetupNewHandle(a, count, elemSize);
    if r.Allocated? {
      var slot, rec := r.slot, r.arena.table[r.slot];
      assert slot !in a.chain;
      var pos :| 0 <= pos <= |a.chain| && r.arena == Insert(a, slot, rec, pos);
      DeleteUndoesInsert(a, slot, rec, pos);
      ZeroingUnchainedSlot(a, slot);
    }
  }
}
