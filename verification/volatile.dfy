/** The volatile (per-frame) bump allocator of the newer snapshot: a buffer,
    a bump offset and a frame counter that clears the buffer every second
    frame.  Offsets are relative to the first byte of the volatile buffer. */
module VolatileMemory {

  /** The volatile storage: its size, the next free offset, the 8-bit frame
      counter and the buffer's bytes. */
  datatype Volatile = Volatile(size: nat, next: nat, frameCounter: nat, bytes: seq<nat>)

  /** The frame counter is an 8-bit unsigned integer. */
  const FrameCounterModulus: nat := 256

  /** Frames between two clears. */
  const ClearPeriod: nat := 2

  predicate Valid(v: Volatile) {
    v.next <= v.size && |v.bytes| == v.size && v.frameCounter < ClearPeriod
  }

  predicate AllZero(s: seq<nat>) {
    forall i :: 0 <= i < |s| ==> s[i] == 0
  }

  /** The state `StartUp` leaves: a zeroed buffer, the offset at its start
      and the counter at 0. */
  function Fresh(size: nat): (v: Volatile)
    ensures Valid(v) && v.size == size && v.next == 0 && v.frameCounter == 0 && AllZero(v.bytes)
  {
    Volatile(size, 0, 0, seq(size, _ => 0))
  }

  /** Result of a volatile allocation: the new state and the returned offset. */
  datatype Bump = Bump(state: Volatile, address: nat)

  /** `AllocateVolatile(count)`: the bounds check is a fatal assert, so it is
      a precondition; the old offset is returned and the offset advances by
      exactly `count * elemSize`. */
  function AllocateVolatile(v: Volatile, count: nat, elemSize: nat): (r: Bump)
    requires Valid(v)
    requires v.next + count * elemSize <= v.size
    ensures Valid(r.state)
    ensures r.address == v.next && r.address + count * elemSize == r.state.next <= v.size
    ensures r.state.size == v.size && r.state.frameCounter == v.frameCounter && r.state.bytes == v.bytes
  {
    Bump(v.(next := v.next + count * elemSize), v.next)
  }

  /** Two consecutive volatile allocations are adjacent and do not overlap. */
  lemma {:induction false} ConsecutiveAllocationsAdjacent(v: Volatile, c1: nat, c2: nat, elemSize: nat)
    requires Valid(v) && v.next + (c1 + c2) * elemSize <= v.size
    ensures var r1 := AllocateVolatile(v, c1, elemSize);
            r1.state.next + c2 * elemSize <= r1.state.size
            && var r2 := AllocateVolatile(r1.state, c2, elemSize);
               r2.address == r1.address + c1 * elemSize
               && r2.state.next == v.next + (c1 + c2) * elemSize
  {
    assert (c1 + c2) * elemSize == c1 * elemSize + c2 * elemSize;
  }

  /** `IncrementFrameCounter`: bump the 8-bit counter; once it reaches two,
      zero the buffer, rewind the offset and reset the counter. */
  function IncrementFrameCounter(v: Volatile): (r: Volatile)
    requires Valid(v)
    ensures Valid(r) && r.size == v.size
    ensures v.frameCounter + 1 < ClearPeriod ==> r == v.(frameCounter := v.frameCounter + 1)
    ensures v.frameCounter + 1 >= ClearPeriod ==>
              r.next == 0 && r.frameCounter == 0 && AllZero(r.bytes)
  {
    var c := (v.frameCounter + 1) % FrameCounterModulus;
    if c >= ClearPeriod then Volatile(v.size, 0, 0, seq(v.size, _ => 0))
    else v.(frameCounter := c)
  }

  /** Two frames after any valid state the buffer has been cleared: the
      offset is back at the start and every byte is zero. */
  lemma {:induction false} TwoFramesClear(v: Volatile)
    requires Valid(v)
    ensures var r := IncrementFrameCounter(IncrementFrameCounter(v));
            r.next == 0 && AllZero(r.bytes) && r.frameCounter < ClearPeriod
  {
  }

  /** Exactly one of two consecutive increments clears the buffer. */
  lemma {:induction false} ClearEveryOtherFrame(v: Volatile)
    requires Valid(v)
    ensures var r1 := IncrementFrameCounter(v);
            var r2 := IncrementFrameCounter(r1);
            (r1.frameCounter == 0) != (r2.frameCounter == 0)
  {
  }

  /** The volatile-allocation scenario: from a fresh buffer, an allocation,
      one frame, a second allocation one element further on, another frame,
      and a third allocation that reuses the first address. */
  lemma {:induction false} VolatileScenario(size: nat, elemSize: nat)
    requires 2 * elemSize <= size
    ensures var v0 := Fresh(size);
            var a := AllocateVolatile(v0, 1, elemSize);
            var f1 := IncrementFrameCounter(a.state);
            var b := AllocateVolatile(f1, 1, elemSize);
            var f2 := IncrementFrameCounter(b.state);
            var c := AllocateVolatile(f2, 1, elemSize);
            b.address == a.address + elemSize && c.address == a.address
  {
  }
}
