/** The handle table and the address-ordered chain of live records that the
    memory manager keeps at the head of its reserved block.

    Addresses are offsets from the first reserved byte.  The handle table
    occupies `[0, addrStart)`, blocks are carved from `[addrStart, memEnd)`.
    The intrusive `nextHandle` links of the original are represented by
    `chain`: the table slots of the live records, in chain order. */
module Arena {

  datatype Option<T> = None | Some(value: T)

  /** Number of slots in the handle table. */
  const TableLength: nat := 512

  /** One handle-table slot: where a block lives, how big it is, how many
      elements it holds, whether the slot is claimed and whether the block
      may be relocated by defragmentation. */
  datatype Record = Record(location: nat, byteSize: nat, elementCount: nat,
                           isUsed: bool, isCopyable: bool)

  /** The all-zero record a freed or never-used slot holds. */
  const ZeroRecord: Record := Record(0, 0, 0, false, false)

  /** One past the last byte of a block. */
  function End(r: Record): nat {
    r.location + r.byteSize
  }

  /** The arena state: the table, the chain, the addressable bounds and the
      size the manager reports as its memory size. */
  datatype Arena = Arena(table: seq<Record>, chain: seq<nat>,
                         addrStart: nat, memEnd: nat, memorySize: nat)

  /** The live records in chain order. */
  function Blocks(a: Arena): (bs: seq<Record>)
    ensures |bs| == |a.chain|
    ensures forall k :: 0 <= k < |a.chain| && a.chain[k] < |a.table| ==> bs[k] == a.table[a.chain[k]]
  {
    seq(|a.chain|, k requires 0 <= k < |a.chain| =>
      if a.chain[k] < |a.table| then a.table[a.chain[k]] else ZeroRecord)
  }

  /** Every block lies inside `[lo, hi)` and each block ends no later than
      its successor starts. */
  predicate Ordered(bs: seq<Record>, lo: nat, hi: nat) {
    (forall k :: 0 <= k < |bs| ==> lo <= bs[k].location && End(bs[k]) <= hi)
    && (forall k :: 0 < k < |bs| ==> End(bs[k - 1]) <= bs[k].location)
  }

  predicate Distinct(s: seq<nat>) {
    forall i, j :: 0 <= i < j < |s| ==> s[i] != s[j]
  }

  /** The arena invariant every public operation keeps. */
  predicate Valid(a: Arena) {
    |a.table| == TableLength
    && a.addrStart <= a.memEnd
    && a.memEnd <= a.addrStart + a.memorySize
    && (forall k :: 0 <= k < |a.chain| ==> a.chain[k] < |a.table|)
    && Distinct(a.chain)
    && (forall s :: 0 <= s < |a.table| ==> (a.table[s].isUsed <==> s in a.chain))
    && Ordered(Blocks(a), a.addrStart, a.memEnd)
  }

  /** Ordering is transitive: an earlier block ends before any later one starts. */
  lemma {:induction false} OrderedDisjoint(bs: seq<Record>, lo: nat, hi: nat, i: nat, j: nat)
    requires Ordered(bs, lo, hi)
    requires i < j < |bs|
    ensures End(bs[i]) <= bs[j].location
    decreases j - i
  {
    if i + 1 < j {
      OrderedDisjoint(bs, lo, hi, i + 1, j);
    }
  }

  /** A suffix of an ordered sequence is ordered from the end of the block before it. */
  lemma {:induction false} OrderedTail(bs: seq<Record>, lo: nat, hi: nat)
    requires Ordered(bs, lo, hi)
    requires |bs| > 0
    ensures Ordered(bs[1..], End(bs[0]), hi)
  {
    forall k | 0 <= k < |bs| - 1
      ensures End(bs[0]) <= bs[1..][k].location
    {
      OrderedDisjoint(bs, lo, hi, 0, k + 1);
    }
  }

  /** Sum of the block sizes, walking the chain as `GetTotalAllocatedBytes` does. */
  function SumSizes(bs: seq<Record>): nat {
    if |bs| == 0 then 0 else bs[0].byteSize + SumSizes(bs[1..])
  }

  lemma {:induction false} SumSizesConcat(x: seq<Record>, y: seq<Record>)
    ensures SumSizes(x + y) == SumSizes(x) + SumSizes(y)
  {
    if |x| == 0 {
      assert x + y == y;
    } else {
      assert (x + y)[1..] == x[1..] + y;
      SumSizesConcat(x[1..], y);
    }
  }

  /** Ordered blocks inside `[lo, hi)` cannot hold more than `hi - lo` bytes. */
  lemma {:induction false} OrderedSumBound(bs: seq<Record>, lo: nat, hi: nat)
    requires lo <= hi
    requires Ordered(bs, lo, hi)
    ensures SumSizes(bs) <= hi - lo
  {
    if |bs| > 0 {
      OrderedTail(bs, lo, hi);
      OrderedSumBound(bs[1..], End(bs[0]), hi);
    }
  }

  /** `GetTotalAllocatedBytes`: the sum of `byteSize` over the chain. */
  function AllocatedBytes(a: Arena): nat {
    SumSizes(Blocks(a))
  }

  /** The live blocks never hold more bytes than the addressable region has. */
  lemma {:induction false} AllocatedWithinArena(a: Arena)
    requires Valid(a)
    ensures AllocatedBytes(a) <= a.memEnd - a.addrStart
  {
    OrderedSumBound(Blocks(a), a.addrStart, a.memEnd);
  }

  /** `GetTotalFreeBytes`: the memory size minus the allocated bytes.  The
      subtraction cannot wrap on a valid arena. */
  function FreeBytes(a: Arena): (r: nat)
    requires Valid(a)
    ensures r >= a.memorySize - (a.memEnd - a.addrStart)
  {
    AllocatedWithinArena(a);
    a.memorySize - AllocatedBytes(a)
  }

  /** The values occurring in a sequence. */
  function Members(s: seq<nat>): (m: set<nat>)
    ensures forall x :: x in m <==> x in s
  {
    if |s| == 0 then {} else {s[0]} + Members(s[1..])
  }

  /** A duplicate-free sequence has as many members as it has entries. */
  lemma {:induction false} DistinctCard(s: seq<nat>)
    requires Distinct(s)
    ensures |Members(s)| == |s|
  {
    if |s| > 0 {
      var t := s[1..];
      assert Distinct(t) by {
        forall i, j | 0 <= i < j < |t| ensures t[i] != t[j] {
          assert t[i] == s[i + 1] && t[j] == s[j + 1];
        }
      }
      DistinctCard(t);
      assert s[0] !in Members(t) by {
        forall j | 0 <= j < |t| ensures t[j] != s[0] {
          assert t[j] == s[j + 1];
        }
      }
    }
  }

  /** `GetNodeCount`: the chain length, which is the number of claimed table slots. */
  function NodeCount(a: Arena): (r: nat)
    requires Valid(a)
    ensures r == |set s | 0 <= s < |a.table| && a.table[s].isUsed|
  {
    DistinctCard(a.chain);
    assert (set s | 0 <= s < |a.table| && a.table[s].isUsed) == Members(a.chain);
    |a.chain|
  }

  /** Count of blocks that do not start where the previous block (or the
      addressable start) ended, as `CountFragments` walks the chain. */
  function Fragments(bs: seq<Record>, prevEnd: nat): nat {
    if |bs| == 0 then 0
    else (if bs[0].location != prevEnd then 1 else 0) + Fragments(bs[1..], End(bs[0]))
  }

  function CountFragments(a: Arena): nat {
    Fragments(Blocks(a), a.addrStart)
  }

  /** Every block starts exactly where its predecessor ends, the first one at `prevEnd`. */
  predicate Contiguous(bs: seq<Record>, prevEnd: nat) {
    (|bs| > 0 ==> bs[0].location == prevEnd)
    && (forall k :: 0 < k < |bs| ==> bs[k].location == End(bs[k - 1]))
  }

  /** There are no fragments exactly when the blocks are packed from `prevEnd`. */
  lemma {:induction false} NoFragmentsIffContiguous(bs: seq<Record>, prevEnd: nat)
    ensures Fragments(bs, prevEnd) == 0 <==> Contiguous(bs, prevEnd)
  {
    if |bs| > 0 {
      NoFragmentsIffContiguous(bs[1..], End(bs[0]));
      if Contiguous(bs, prevEnd) {
        assert Contiguous(bs[1..], End(bs[0]));
      }
      if Fragments(bs, prevEnd) == 0 {
        forall k | 0 < k < |bs|
          ensures bs[k].location == End(bs[k - 1])
        {
          assert bs[1..][k - 1] == bs[k];
          if k > 1 {
            assert bs[1..][k - 2] == bs[k - 1];
          }
        }
      }
    }
  }

  /** There are never more fragments than blocks. */
  lemma {:induction false} FragmentsAtMostNodes(bs: seq<Record>, prevEnd: nat)
    ensures Fragments(bs, prevEnd) <= |bs|
  {
    if |bs| > 0 {
      FragmentsAtMostNodes(bs[1..], End(bs[0]));
    }
  }
}
