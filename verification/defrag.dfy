/** `Defragment` and `MoveHandle`: sliding gapped blocks down onto the end of
    their predecessor, in chain order, until the move budget is spent. */
module Defrag {
  import opened Arena
  import opened Chain

  /** The blocks after the walk and the number of blocks moved. */
  datatype Walk = Walk(blocks: seq<Record>, moved: nat)

  /** Whether the walk may relocate `b`: always in the older snapshot, only
      relocatable blocks when pins are honoured. */
  predicate Movable(b: Record, honourPins: bool) {
    !honourPins || b.isCopyable
  }

  /** The defragmentation walk over the blocks in chain order.  `prevEnd` is
      where the previous block (after its own move) ends; `budget` is how many
      more blocks may move.  A block moves when there is a gap behind it and
      it is movable, and then lands exactly on `prevEnd`. */
  function DefragBlocks(bs: seq<Record>, prevEnd: nat, budget: nat, honourPins: bool): (r: Walk)
    ensures |r.blocks| == |bs| && r.moved <= budget
    ensures forall k :: 0 <= k < |bs| ==> r.blocks[k] == bs[k].(location := r.blocks[k].location)
    ensures forall k :: 0 <= k < |bs| && r.blocks[k].location != bs[k].location ==>
              Movable(bs[k], honourPins)
              && r.blocks[k].location == (if k == 0 then prevEnd else End(r.blocks[k - 1]))
    decreases |bs|
  {
    if |bs| == 0 || budget == 0 then Walk(bs, 0)
    else
      var b := bs[0];
      if b.location != prevEnd && Movable(b, honourPins) then
        var nb := b.(location := prevEnd);
        var rest := DefragBlocks(bs[1..], End(nb), budget - 1, honourPins);
        Walk([nb] + rest.blocks, rest.moved + 1)
      else
        var rest := DefragBlocks(bs[1..], End(b), budget, honourPins);
        Walk([b] + rest.blocks, rest.moved)
  }

  /** Where the walk puts the head block `b` when the previous block ends at `prevEnd`. */
  function Placed(b: Record, prevEnd: nat, honourPins: bool): (nb: Record)
    ensures nb == b.(location := nb.location)
  {
    if b.location != prevEnd && Movable(b, honourPins) then b.(location := prevEnd) else b
  }

  /** One step of the walk: the placed head block, then the walk of the rest
      from its end, with one budget unit spent if the head moved. */
  lemma {:induction false} WalkStep(bs: seq<Record>, prevEnd: nat, budget: nat, honourPins: bool)
    requires |bs| > 0 && budget > 0
    ensures var nb := Placed(bs[0], prevEnd, honourPins);
            var budget' := if nb == bs[0] then budget else budget - 1;
            DefragBlocks(bs, prevEnd, budget, honourPins).blocks
            == [nb] + DefragBlocks(bs[1..], End(nb), budget', honourPins).blocks
  {
  }

  /** Every movable block of `bs` sits, in `ws`, on its predecessor's end,
      or on `prevEnd` for the head. */
  predicate MovablePacked(bs: seq<Record>, ws: seq<Record>, prevEnd: nat, honourPins: bool)
    requires |ws| == |bs|
  {
    (|ws| > 0 && Movable(bs[0], honourPins) ==> ws[0].location == prevEnd)
    && forall k :: 0 < k < |ws| && Movable(bs[k], honourPins) ==> ws[k].location == End(ws[k - 1])
  }

  /** Progress: unless the budget runs out, every movable block ends up on
      its predecessor's (new) end, or on `prevEnd` for the head. */
  lemma {:induction false} WalkProgress(bs: seq<Record>, prevEnd: nat, budget: nat, honourPins: bool)
    ensures var r := DefragBlocks(bs, prevEnd, budget, honourPins);
            r.moved < budget ==> MovablePacked(bs, r.blocks, prevEnd, honourPins)
    decreases |bs|
  {
    var r := DefragBlocks(bs, prevEnd, budget, honourPins);
    if |bs| > 0 && budget > 0 && r.moved < budget {
      var b := bs[0];
      var nb := Placed(b, prevEnd, honourPins);
      var budget': nat := if nb == b then budget else budget - 1;
      var rest := DefragBlocks(bs[1..], End(nb), budget', honourPins);
      assert r.blocks == [nb] + rest.blocks && r.moved == rest.moved + (if nb == b then 0 else 1);
      WalkProgress(bs[1..], End(nb), budget', honourPins);
      assert MovablePacked(bs[1..], rest.blocks, End(nb), honourPins);
      assert r.blocks[0] == nb;
      forall k | 0 < k < |r.blocks| && Movable(bs[k], honourPins)
        ensures r.blocks[k].location == End(r.blocks[k - 1])
      {
        assert bs[k] == bs[1..][k - 1] && r.blocks[k] == rest.blocks[k - 1];
        if k > 1 { assert r.blocks[k - 1] == rest.blocks[k - 2]; }
      }
    }
  }

  /** The first `p` blocks have been walked: each movable one among them sits
      on its predecessor's end (the head on `prevEnd`), and every block from
      `p` on is exactly as it was. */
  predicate PackedPrefix(bs: seq<Record>, ws: seq<Record>, prevEnd: nat, honourPins: bool, p: nat)
    requires |ws| == |bs| && p <= |bs|
  {
    (0 < p && Movable(bs[0], honourPins) ==> ws[0].location == prevEnd)
    && (forall k :: 0 < k < p && Movable(bs[k], honourPins) ==> ws[k].location == End(ws[k - 1]))
    && (forall k :: p <= k < |bs| ==> ws[k] == bs[k])
  }

  /** Every block that moved lands on its predecessor's (new) end, or on
      `prevEnd` for the head. */
  predicate LandsOnPredecessor(bs: seq<Record>, ws: seq<Record>, prevEnd: nat)
    requires |ws| == |bs|
  {
    (|bs| > 0 && ws[0].location != bs[0].location ==> ws[0].location == prevEnd)
    && forall k :: 0 < k < |bs| && ws[k].location != bs[k].location ==> ws[k].location == End(ws[k - 1])
  }

  /** The shape of the walk whatever the budget: some prefix is packed and
      the rest is untouched, and the walk stopped short of the end only
      because it spent its whole budget. */
  lemma {:induction false} WalkPrefix(bs: seq<Record>, prevEnd: nat, budget: nat, honourPins: bool)
    ensures exists p :: 0 <= p <= |bs|
              && PackedPrefix(bs, DefragBlocks(bs, prevEnd, budget, honourPins).blocks, prevEnd, honourPins, p)
              && (p < |bs| ==> DefragBlocks(bs, prevEnd, budget, honourPins).moved == budget)
  {
    var p := WalkPrefixAt(bs, prevEnd, budget, honourPins);
  }

  /** `WalkPrefix` with the length of the walked prefix as its result. */
  lemma {:induction false} WalkPrefixAt(bs: seq<Record>, prevEnd: nat, budget: nat, honourPins: bool) returns (p: nat)
    ensures p <= |bs| && PackedPrefix(bs, DefragBlocks(bs, prevEnd, budget, honourPins).blocks, prevEnd, honourPins, p)
    ensures p < |bs| ==> DefragBlocks(bs, prevEnd, budget, honourPins).moved == budget
    decreases |bs|
  {
    var r := DefragBlocks(bs, prevEnd, budget, honourPins);
    if |bs| == 0 || budget == 0 {
      assert r == Walk(bs, 0);
      p := 0;
      assert PackedPrefix(bs, r.blocks, prevEnd, honourPins, p);
    } else {
      var nb := Placed(bs[0], prevEnd, honourPins);
      var budget': nat := if nb == bs[0] then budget else budget - 1;
      var rest := DefragBlocks(bs[1..], End(nb), budget', honourPins);
      assert r == Walk([nb] + rest.blocks, rest.moved + if nb == bs[0] then 0 else 1);
      var p' := WalkPrefixAt(bs[1..], End(nb), budget', honourPins);
      PrefixCons(bs, nb, rest.blocks, prevEnd, honourPins, p');
      p := p' + 1;
    }
  }

  /** Placing the head block in front of a tail whose first `p'` blocks are
      packed packs the first `p' + 1` blocks. */
  lemma {:induction false} PrefixCons(bs: seq<Record>, nb: Record, rest: seq<Record>, prevEnd: nat, honourPins: bool, p': nat)
    requires |bs| > 0 && |rest| == |bs| - 1 && p' <= |rest|
    requires nb == Placed(bs[0], prevEnd, honourPins)
    requires PackedPrefix(bs[1..], rest, End(nb), honourPins, p')
    ensures PackedPrefix(bs, [nb] + rest, prevEnd, honourPins, p' + 1)
  {
    var ws := [nb] + rest;
    assert ws[0] == nb;
    forall k | 0 < k < p' + 1 && Movable(bs[k], honourPins) ensures ws[k].location == End(ws[k - 1]) {
      assert bs[k] == bs[1..][k - 1] && ws[k] == rest[k - 1];
      if k > 1 { assert ws[k - 1] == rest[k - 2]; }
    }
    forall k | p' + 1 <= k < |bs| ensures ws[k] == bs[k] {
      assert bs[k] == bs[1..][k - 1] && ws[k] == rest[k - 1];
    }
  }

  /** The walk keeps the blocks ordered inside the same bounds and only ever
      moves a block towards the start. */
  lemma {:induction false} DefragKeepsOrder(bs: seq<Record>, prevEnd: nat, hi: nat, budget: nat, honourPins: bool)
    requires Ordered(bs, prevEnd, hi)
    ensures var w := DefragBlocks(bs, prevEnd, budget, honourPins);
            Ordered(w.blocks, prevEnd, hi)
            && forall k :: 0 <= k < |bs| ==> w.blocks[k].location <= bs[k].location
    decreases |bs|
  {
    if |bs| > 0 && budget > 0 {
      var b := bs[0];
      var nb := Placed(b, prevEnd, honourPins);
      var budget' := if nb == b then budget else budget - 1;
      var rest := DefragBlocks(bs[1..], End(nb), budget', honourPins).blocks;
      var ws := DefragBlocks(bs, prevEnd, budget, honourPins).blocks;
      WalkStep(bs, prevEnd, budget, honourPins);
      OrderedTail(bs, prevEnd, hi);
      assert prevEnd <= nb.location <= b.location;
      OrderedLower(bs[1..], End(b), End(nb), hi);
      DefragKeepsOrder(bs[1..], End(nb), hi, budget', honourPins);
      OrderedCons(nb, rest, prevEnd, hi);
      forall k | 0 < k < |bs| ensures ws[k].location <= bs[k].location {
        assert ws[k] == rest[k - 1] && bs[k] == bs[1..][k - 1];
      }
    }
  }

  /** Lowering the start bound keeps a sequence ordered. */
  lemma {:induction false} OrderedLower(bs: seq<Record>, lo: nat, lo': nat, hi: nat)
    requires Ordered(bs, lo, hi) && lo' <= lo
    ensures Ordered(bs, lo', hi)
  {
  }

  /** A block inside the bounds followed by blocks ordered from its end is ordered. */
  lemma {:induction false} OrderedCons(b: Record, rest: seq<Record>, lo: nat, hi: nat)
    requires lo <= b.location && End(b) <= hi
    requires Ordered(rest, End(b), hi)
    ensures Ordered([b] + rest, lo, hi)
  {
    var n := [b] + rest;
    forall k | 0 <= k < |n| ensures lo <= n[k].location && End(n[k]) <= hi {
      if k > 0 { assert n[k] == rest[k - 1]; }
    }
    forall k | 0 < k < |n| ensures End(n[k - 1]) <= n[k].location {
      assert n[k] == rest[k - 1];
      if k > 1 { assert n[k - 1] == rest[k - 2]; }
    }
  }

  /** Sequences that differ only in block locations hold the same number of bytes. */
  lemma {:induction false} SameSizesSameSum(xs: seq<Record>, ys: seq<Record>)
    requires |xs| == |ys|
    requires forall k :: 0 <= k < |xs| ==> xs[k].byteSize == ys[k].byteSize
    ensures SumSizes(xs) == SumSizes(ys)
  {
    if |xs| > 0 {
      SameSizesSameSum(xs[1..], ys[1..]);
    }
  }

  /** The walk never raises the fragment count.  Stated for a walk that starts
      at `newEnd` over blocks whose fragments are counted from `oldEnd`: when
      the two differ, the first untouched block may gain one fragment that a
      moved block before it lost. */
  lemma {:induction false} DefragFragmentsBound(bs: seq<Record>, oldEnd: nat, newEnd: nat, hi: nat,
                                                 budget: nat, honourPins: bool)
    requires newEnd <= oldEnd && Ordered(bs, oldEnd, hi)
    ensures Fragments(DefragBlocks(bs, newEnd, budget, honourPins).blocks, newEnd)
            <= Fragments(bs, oldEnd) + (if newEnd != oldEnd then 1 else 0)
    decreases |bs|
  {
    if |bs| > 0 {
      var b := bs[0];
      if budget == 0 {
      } else if b.location != newEnd && Movable(b, honourPins) {
        var nb := b.(location := newEnd);
        var rest := DefragBlocks(bs[1..], End(nb), budget - 1, honourPins);
        assert DefragBlocks(bs, newEnd, budget, honourPins).blocks == [nb] + rest.blocks;
        assert ([nb] + rest.blocks)[1..] == rest.blocks;
        OrderedTail(bs, oldEnd, hi);
        DefragFragmentsBound(bs[1..], End(b), End(nb), hi, budget - 1, honourPins);
      } else {
        var rest := DefragBlocks(bs[1..], End(b), budget, honourPins);
        assert DefragBlocks(bs, newEnd, budget, honourPins).blocks == [b] + rest.blocks;
        assert ([b] + rest.blocks)[1..] == rest.blocks;
        OrderedTail(bs, oldEnd, hi);
        DefragFragmentsBound(bs[1..], End(b), End(b), hi, budget, honourPins);
      }
    }
  }

  /** A block at `prevEnd` followed by blocks packed from its end is packed from `prevEnd`. */
  lemma {:induction false} ContiguousCons(b: Record, rest: seq<Record>, prevEnd: nat)
    requires b.location == prevEnd && Contiguous(rest, End(b))
    ensures Contiguous([b] + rest, prevEnd)
  {
    var n := [b] + rest;
    forall k | 0 < k < |n| ensures n[k].location == End(n[k - 1]) {
      assert n[k] == rest[k - 1];
      if k > 1 { assert n[k - 1] == rest[k - 2]; }
    }
  }

  /** With budget for every block and nothing pinned, the walk packs all
      blocks from `prevEnd`. */
  lemma {:induction false} FullWalkPacks(bs: seq<Record>, prevEnd: nat, budget: nat, honourPins: bool)
    requires budget >= |bs|
    requires forall k :: 0 <= k < |bs| ==> Movable(bs[k], honourPins)
    ensures Contiguous(DefragBlocks(bs, prevEnd, budget, honourPins).blocks, prevEnd)
    decreases |bs|
  {
    if |bs| > 0 {
      var nb := Placed(bs[0], prevEnd, honourPins);
      var budget': nat := if nb == bs[0] then budget else budget - 1;
      WalkStep(bs, prevEnd, budget, honourPins);
      assert Movable(bs[0], honourPins);
      assert forall k :: 0 <= k < |bs[1..]| ==> Movable(bs[1..][k], honourPins) by {
        forall k | 0 <= k < |bs[1..]| ensures Movable(bs[1..][k], honourPins) {
          assert bs[1..][k] == bs[k + 1];
        }
      }
      FullWalkPacks(bs[1..], End(nb), budget', honourPins);
      ContiguousCons(nb, DefragBlocks(bs[1..], End(nb), budget', honourPins).blocks, prevEnd);
    }
  }

  /** When every block is relocatable the pin check makes no difference: the
      newer walk and the older one agree. */
  lemma {:induction false} PinsIrrelevantWhenAllMovable(bs: seq<Record>, prevEnd: nat, budget: nat)
    requires forall k :: 0 <= k < |bs| ==> bs[k].isCopyable
    ensures DefragBlocks(bs, prevEnd, budget, true) == DefragBlocks(bs, prevEnd, budget, false)
    decreases |bs|
  {
    if |bs| > 0 && budget > 0 {
      var b, tail := bs[0], bs[1..];
      assert b.isCopyable;
      assert forall k :: 0 <= k < |tail| ==> tail[k].isCopyable by {
        forall k | 0 <= k < |tail| ensures tail[k].isCopyable {
          assert tail[k] == bs[k + 1];
        }
      }
      var moves := b.location != prevEnd;
      var nb := if moves then b.(location := prevEnd) else b;
      var budget' := if moves then budget - 1 else budget;
      PinsIrrelevantWhenAllMovable(tail, End(nb), budget');
      var pinned, unpinned := DefragBlocks(tail, End(nb), budget', true), DefragBlocks(tail, End(nb), budget', false);
      assert DefragBlocks(bs, prevEnd, budget, true)
             == Walk([nb] + pinned.blocks, pinned.moved + if moves then 1 else 0);
      assert DefragBlocks(bs, prevEnd, budget, false)
             == Walk([nb] + unpinned.blocks, unpinned.moved + if moves then 1 else 0);
    }
  }

  /** Number of positions at which two block sequences disagree on location. */
  function Relocated(xs: seq<Record>, ys: seq<Record>): nat
    requires |xs| == |ys|
  {
    if |xs| == 0 then 0
    else (if xs[0].location != ys[0].location then 1 else 0) + Relocated(xs[1..], ys[1..])
  }

  /** The walk's move counter is exactly the number of relocated blocks. */
  lemma {:induction false} MovedCountsRelocations(bs: seq<Record>, prevEnd: nat, budget: nat, honourPins: bool)
    ensures var w := DefragBlocks(bs, prevEnd, budget, honourPins);
            Relocated(bs, w.blocks) == w.moved
    decreases |bs|
  {
    if |bs| > 0 && budget > 0 {
      var b := bs[0];
      var w := DefragBlocks(bs, prevEnd, budget, honourPins);
      if b.location != prevEnd && Movable(b, honourPins) {
        var nb := b.(location := prevEnd);
        var rest := DefragBlocks(bs[1..], End(nb), budget - 1, honourPins);
        assert w.blocks[1..] == rest.blocks;
        MovedCountsRelocations(bs[1..], End(nb), budget - 1, honourPins);
      } else {
        var rest := DefragBlocks(bs[1..], End(b), budget, honourPins);
        assert w.blocks[1..] == rest.blocks;
        MovedCountsRelocations(bs[1..], End(b), budget, honourPins);
      }
    } else if |bs| > 0 {
      RelocatedSelf(bs);
    }
  }

  lemma {:induction false} RelocatedSelf(bs: seq<Record>)
    ensures Relocated(bs, bs) == 0
  {
    if |bs| > 0 {
      RelocatedSelf(bs[1..]);
    }
  }

  /** The table after writing `bs` into the chain's slots, in chain order. */
  function WriteBlocks(a: Arena, bs: seq<Record>): (r: Arena)
    requires |bs| == |a.chain| && Distinct(a.chain)
    requires forall k :: 0 <= k < |a.chain| ==> a.chain[k] < |a.table|
    ensures r.chain == a.chain && |r.table| == |a.table|
    ensures r.addrStart == a.addrStart && r.memEnd == a.memEnd && r.memorySize == a.memorySize
    ensures Blocks(r) == bs
    ensures forall s :: 0 <= s < |a.table| && s !in a.chain ==> r.table[s] == a.table[s]
  {
    var t := seq(|a.table|, s requires 0 <= s < |a.table| =>
               if s in a.chain then bs[IndexOf(a.chain, s)] else a.table[s]);
    var r := a.(table := t);
    assert Blocks(r) == bs by {
      forall k | 0 <= k < |a.chain| ensures Blocks(r)[k] == bs[k] {
        assert IndexOf(a.chain, a.chain[k]) == k;
        assert t[a.chain[k]] == bs[k];
      }
    }
    r
  }

  /** `Defragment(blockCount)`: walk the chain from the addressable start,
      moving at most `blockCount` gapped blocks (an 8-bit count) onto their
      predecessor's end.  `honourPins` selects the newer snapshot, which
      skips blocks that are not relocatable. */
  function DefragmentWith(a: Arena, blockCount: nat, honourPins: bool): (r: Arena)
    requires Valid(a) && blockCount < 256
    ensures Valid(r)
    ensures r.chain == a.chain && r.addrStart == a.addrStart && r.memEnd == a.memEnd
            && r.memorySize == a.memorySize
    ensures AllocatedBytes(r) == AllocatedBytes(a)
    ensures CountFragments(r) <= CountFragments(a)
    ensures Relocated(Blocks(a), Blocks(r)) <= blockCount
    ensures forall s :: 0 <= s < |a.table| ==> r.table[s] == a.table[s].(location := r.table[s].location)
    ensures forall s :: 0 <= s < |a.table| && r.table[s].location != a.table[s].location ==>
              s in a.chain && Movable(a.table[s], honourPins)
              && r.table[s].location < a.table[s].location
    ensures Relocated(Blocks(a), Blocks(r)) < blockCount ==>
              MovablePacked(Blocks(a), Blocks(r), a.addrStart, honourPins)
    ensures LandsOnPredecessor(Blocks(a), Blocks(r), a.addrStart)
    ensures exists p :: 0 <= p <= |Blocks(a)| && PackedPrefix(Blocks(a), Blocks(r), a.addrStart, honourPins, p)
                        && (p < |Blocks(a)| ==> Relocated(Blocks(a), Blocks(r)) == blockCount)
  {
    WalkKeepsArena(a, blockCount, honourPins);
    WalkSlotFacts(a, blockCount, honourPins);
    WalkedProgress(a, blockCount, honourPins);
    WalkedShape(a, blockCount, honourPins);
    Walked(a, blockCount, honourPins)
  }

  /** The arena with the walk's blocks written back into their slots. */
  function Walked(a: Arena, blockCount: nat, honourPins: bool): (r: Arena)
    requires Valid(a)
    ensures r.chain == a.chain && |r.table| == |a.table|
    ensures r.addrStart == a.addrStart && r.memEnd == a.memEnd && r.memorySize == a.memorySize
  {
    WriteBlocks(a, DefragBlocks(Blocks(a), a.addrStart, blockCount, honourPins).blocks)
  }

  /** The written-back walk keeps the arena valid and its byte count, and
      neither adds fragments nor relocates more than the budget. */
  lemma {:induction false} WalkKeepsArena(a: Arena, blockCount: nat, honourPins: bool)
    requires Valid(a)
    ensures var r := Walked(a, blockCount, honourPins);
            Valid(r) && AllocatedBytes(r) == AllocatedBytes(a)
            && CountFragments(r) <= CountFragments(a)
            && Relocated(Blocks(a), Blocks(r)) <= blockCount
  {
    var bs := Blocks(a);
    var w := DefragBlocks(bs, a.addrStart, blockCount, honourPins);
    DefragKeepsOrder(bs, a.addrStart, a.memEnd, blockCount, honourPins);
    SameSizesSameSum(bs, w.blocks);
    DefragFragmentsBound(bs, a.addrStart, a.addrStart, a.memEnd, blockCount, honourPins);
    MovedCountsRelocations(bs, a.addrStart, blockCount, honourPins);
    var r := WriteBlocks(a, w.blocks);
    assert Blocks(r) == w.blocks;
    forall s | 0 <= s < |r.table| ensures r.table[s].isUsed <==> s in r.chain {
      if s in a.chain {
        var k := IndexOf(a.chain, s);
        assert r.table[s] == Blocks(r)[k] && a.table[s] == bs[k];
      }
    }
  }

  /** Unless the budget was spent, the written-back walk leaves every
      movable live block on its predecessor's end. */
  lemma {:induction false} WalkedProgress(a: Arena, blockCount: nat, honourPins: bool)
    requires Valid(a)
    ensures var r := Walked(a, blockCount, honourPins);
            |Blocks(r)| == |Blocks(a)|
            && (Relocated(Blocks(a), Blocks(r)) < blockCount ==>
                  MovablePacked(Blocks(a), Blocks(r), a.addrStart, honourPins))
  {
    var bs := Blocks(a);
    var w := DefragBlocks(bs, a.addrStart, blockCount, honourPins);
    assert Blocks(Walked(a, blockCount, honourPins)) == w.blocks;
    MovedCountsRelocations(bs, a.addrStart, blockCount, honourPins);
    WalkProgress(bs, a.addrStart, blockCount, honourPins);
  }

  /** The written-back walk: every moved block lands on its predecessor's end,
      and the walk packs a prefix of the chain and leaves the rest untouched,
      stopping short of the end only with the whole budget spent. */
  lemma {:induction false} WalkedShape(a: Arena, blockCount: nat, honourPins: bool)
    requires Valid(a)
    ensures |Blocks(Walked(a, blockCount, honourPins))| == |Blocks(a)|
    ensures LandsOnPredecessor(Blocks(a), Blocks(Walked(a, blockCount, honourPins)), a.addrStart)
    ensures exists p :: 0 <= p <= |Blocks(a)|
              && PackedPrefix(Blocks(a), Blocks(Walked(a, blockCount, honourPins)), a.addrStart, honourPins, p)
              && (p < |Blocks(a)| ==> Relocated(Blocks(a), Blocks(Walked(a, blockCount, honourPins))) == blockCount)
  {
    var bs := Blocks(a);
    var w := DefragBlocks(bs, a.addrStart, blockCount, honourPins);
    assert Blocks(Walked(a, blockCount, honourPins)) == w.blocks;
    MovedCountsRelocations(bs, a.addrStart, blockCount, honourPins);
    var p := WalkPrefixAt(bs, a.addrStart, blockCount, honourPins);
  }

  /** Without pins, blocks packed behind their predecessors are contiguous. */
  lemma {:induction false} UnpinnedPackedIsContiguous(bs: seq<Record>, ws: seq<Record>, prevEnd: nat)
    requires |ws| == |bs| && MovablePacked(bs, ws, prevEnd, false)
    ensures Contiguous(ws, prevEnd)
  {
    if |ws| > 0 {
      assert Movable(bs[0], false);
    }
    forall k | 0 < k < |ws| ensures ws[k].location == End(ws[k - 1]) {
      assert Movable(bs[k], false);
    }
  }

  /** Slot by slot, the written-back walk changes only locations, and only
      of live movable blocks, which it moves down. */
  lemma {:induction false} WalkSlotFacts(a: Arena, blockCount: nat, honourPins: bool)
    requires Valid(a)
    ensures var r := Walked(a, blockCount, honourPins);
            forall s :: 0 <= s < |a.table| ==>
              r.table[s] == a.table[s].(location := r.table[s].location)
              && (r.table[s].location != a.table[s].location ==>
                    s in a.chain && Movable(a.table[s], honourPins)
                    && r.table[s].location < a.table[s].location)
  {
    var bs := Blocks(a);
    var w := DefragBlocks(bs, a.addrStart, blockCount, honourPins);
    DefragKeepsOrder(bs, a.addrStart, a.memEnd, blockCount, honourPins);
    var r := WriteBlocks(a, w.blocks);
    forall s | 0 <= s < |a.table|
      ensures r.table[s] == a.table[s].(location := r.table[s].location)
      ensures r.table[s].location != a.table[s].location ==>
                s in a.chain && Movable(a.table[s], honourPins)
                && r.table[s].location < a.table[s].location
    {
      if s in a.chain {
        var k := IndexOf(a.chain, s);
        assert r.table[s] == Blocks(r)[k] && a.table[s] == bs[k];
      }
    }
  }

  /** `Defragment` of the newer snapshot: pinned blocks stay where they are. */
  function Defragment(a: Arena, blockCount: nat): (r: Arena)
    requires Valid(a) && blockCount < 256
    ensures Valid(r) && r.chain == a.chain
    ensures AllocatedBytes(r) == AllocatedBytes(a)
    ensures CountFragments(r) <= CountFragments(a)
    ensures Relocated(Blocks(a), Blocks(r)) <= blockCount
    ensures forall s :: 0 <= s < |a.table| && !a.table[s].isCopyable ==> r.table[s] == a.table[s]
    ensures Relocated(Blocks(a), Blocks(r)) < blockCount ==>
              MovablePacked(Blocks(a), Blocks(r), a.addrStart, true)
    ensures LandsOnPredecessor(Blocks(a), Blocks(r), a.addrStart)
    ensures exists p :: 0 <= p <= |Blocks(a)| && PackedPrefix(Blocks(a), Blocks(r), a.addrStart, true, p)
                        && (p < |Blocks(a)| ==> Relocated(Blocks(a), Blocks(r)) == blockCount)
  {
    DefragmentWith(a, blockCount, true)
  }

  /** A single move is enough to close the one gap of a two-block chain
      whose first block starts the region: whichever prefix the walk packed,
      its second block ends up on the first one's end. */
  lemma {:induction false} DefragmentClosesSingleGap(a: Arena)
    requires Valid(a) && |a.chain| == 2
    requires Blocks(a)[0].location == a.addrStart && Blocks(a)[1].isCopyable
    ensures CountFragments(Defragment(a, 1)) == 0
    ensures Blocks(Defragment(a, 1))[1].location == End(Blocks(Defragment(a, 1))[0])
  {
    var bs, ws := Blocks(a), Blocks(Defragment(a, 1));
    var p :| 0 <= p <= |bs| && PackedPrefix(bs, ws, a.addrStart, true, p)
             && (p < |bs| ==> Relocated(bs, ws) == 1);
    OneMoveClosesGap(bs, ws, a.addrStart, p);
    NoFragmentsIffContiguous(ws, a.addrStart);
  }

  /** The sequence-level step of `DefragmentClosesSingleGap`: with a packed
      prefix that is not the whole chain, one relocation would have been
      needed, but nothing moved. */
  lemma {:induction false} OneMoveClosesGap(bs: seq<Record>, ws: seq<Record>, prevEnd: nat, p: nat)
    requires |bs| == 2 && |ws| == 2 && p <= 2
    requires bs[0].location == prevEnd && bs[1].isCopyable
    requires LandsOnPredecessor(bs, ws, prevEnd) && PackedPrefix(bs, ws, prevEnd, true, p)
    requires p < 2 ==> Relocated(bs, ws) == 1
    ensures Contiguous(ws, prevEnd)
  {
    if p < 2 {
      assert ws[1] == bs[1];
      assert Relocated(bs[2..], ws[2..]) == 0;
      assert false;
    }
  }

  /** With a budget for every block and no pinned block, `Defragment` leaves
      no fragment. */
  lemma {:induction false} FullDefragmentLeavesNoFragments(a: Arena, blockCount: nat, honourPins: bool)
    requires Valid(a) && blockCount < 256 && blockCount >= |a.chain|
    requires forall k :: 0 <= k < |a.chain| ==> Movable(Blocks(a)[k], honourPins)
    ensures CountFragments(DefragmentWith(a, blockCount, honourPins)) == 0
  {
    var bs := Blocks(a);
    FullWalkPacks(bs, a.addrStart, blockCount, honourPins);
    NoFragmentsIffContiguous(DefragBlocks(bs, a.addrStart, blockCount, honourPins).blocks, a.addrStart);
  }
}
