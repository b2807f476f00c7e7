/** The older snapshot of the memory manager.  Its handle records have no
    relocatable flag, its `StartUp` reserves only the main arena, and its
    `Defragment` relocates every gapped block.  The chain operations
    (`SetupNewHandle`, `FindFirstFreeMemoryBlock`, `DeleteHandle`, the
    counters) are the same as the newer snapshot's and are modelled once, in
    `Arena` and `Chain`. */
module Legacy {
  import opened Arena
  import opened Chain
  import D = Defrag
  import M = Manager

  /** `StartUp(byteSize)` with the intended sizing (see `Manager.StartUp`):
      the main arena only. */
  function StartUp(byteSize: nat, handleBytes: nat): (a: Arena)
    requires M.TableBytes(handleBytes) <= byteSize
    ensures Valid(a) && |a.chain| == 0 && AllocatedBytes(a) == 0 && CountFragments(a) == 0
    ensures a.addrStart == M.TableBytes(handleBytes) && a.memEnd == byteSize
    ensures FreeBytes(a) == a.memEnd - a.addrStart
    ensures forall v :: a == M.StartUp(M.Initial, byteSize, v, handleBytes).arena
  {
    var t := M.TableBytes(handleBytes);
    M.EmptyArena(t, byteSize, byteSize - t)
  }

  /** The older `StartUp(byteSize)` as written: like the newer one it
      reserves, and ends the addressable region at, `byteSize` minus the
      table, with the table inside that block. */
  function StartUpAsWritten(byteSize: nat, handleBytes: nat): (a: Arena)
    requires 2 * M.TableBytes(handleBytes) <= byteSize
    ensures Valid(a) && |a.chain| == 0 && AllocatedBytes(a) == 0
    ensures a.addrStart == M.TableBytes(handleBytes)
    ensures a.memEnd == a.memorySize == byteSize - M.TableBytes(handleBytes)
    ensures FreeBytes(a) == a.memEnd
  {
    var t := M.TableBytes(handleBytes);
    M.EmptyArena(t, byteSize - t, byteSize - t)
  }

  /** The older snapshot overstates its free bytes exactly as the newer one
      does: a fresh arena reports `byteSize - table` free bytes but cannot
      place a block that large, while the corrected arena can. */
  lemma {:induction false} StartUpOverstatesFreeBytes(byteSize: nat, handleBytes: nat)
    requires handleBytes > 0 && 2 * M.TableBytes(handleBytes) <= byteSize
    ensures var a := StartUpAsWritten(byteSize, handleBytes);
            FreeBytes(a) == byteSize - M.TableBytes(handleBytes) && !Fits(a, FreeBytes(a))
    ensures var a := StartUp(byteSize, handleBytes);
            FreeBytes(a) == byteSize - M.TableBytes(handleBytes) && Fits(a, FreeBytes(a))
  {
  }

  /** The older `Defragment(blockCount)`: every block with a gap behind it
      slides onto its predecessor's end, at most `blockCount` of them.  With
      a budget for every block it packs the whole chain. */
  function Defragment(a: Arena, blockCount: nat): (r: Arena)
    requires Valid(a) && blockCount < 256
    ensures Valid(r) && r.chain == a.chain && r.addrStart == a.addrStart && r.memEnd == a.memEnd
    ensures AllocatedBytes(r) == AllocatedBytes(a)
    ensures CountFragments(r) <= CountFragments(a)
    ensures D.Relocated(Blocks(a), Blocks(r)) <= blockCount
    ensures forall s :: 0 <= s < |a.table| && r.table[s].location != a.table[s].location ==>
              s in a.chain && r.table[s].location < a.table[s].location
    ensures blockCount >= |a.chain| ==> CountFragments(r) == 0
    ensures D.Relocated(Blocks(a), Blocks(r)) < blockCount ==>
              D.MovablePacked(Blocks(a), Blocks(r), a.addrStart, false) && CountFragments(r) == 0
    ensures D.LandsOnPredecessor(Blocks(a), Blocks(r), a.addrStart)
    ensures exists p :: 0 <= p <= |Blocks(a)| && D.PackedPrefix(Blocks(a), Blocks(r), a.addrStart, false, p)
                        && (p < |Blocks(a)| ==> D.Relocated(Blocks(a), Blocks(r)) == blockCount)
  {
    var r := D.DefragmentWith(a, blockCount, false);
    if blockCount >= |a.chain| then
      D.FullDefragmentLeavesNoFragments(a, blockCount, false);
      r
    else if D.Relocated(Blocks(a), Blocks(r)) < blockCount then
      D.UnpinnedPackedIsContiguous(Blocks(a), Blocks(r), a.addrStart);
      NoFragmentsIffContiguous(Blocks(r), a.addrStart);
      r
    else r
  }

  /** When no block is pinned the two snapshots' `Defragment` agree. */
  lemma {:induction false} SnapshotsAgreeWithoutPins(a: Arena, blockCount: nat)
    requires Valid(a) && blockCount < 256
    requires forall s :: s in a.chain ==> a.table[s].isCopyable
    ensures Defragment(a, blockCount) == D.Defragment(a, blockCount)
  {
    var bs := Blocks(a);
    forall k | 0 <= k < |bs| ensures bs[k].isCopyable {
      assert a.chain[k] in a.chain;
    }
    D.PinsIrrelevantWhenAllMovable(bs, a.addrStart, blockCount);
  }
}
