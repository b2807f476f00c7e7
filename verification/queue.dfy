/** `Queue<T>`: a fixed-capacity FIFO ring buffer over a block the queue
    owns.  Element values are abstract; `zero` stands for the zero-filled
    bytes a fresh block holds. */
module Ring {

  datatype Queue<T> = Queue(mem: seq<T>, head: nat, tail: nat, capacity: nat, length: nat)

  /** Below twice the modulus, `%` subtracts the modulus at most once. */
  lemma {:induction false} ModBelowTwice(x: nat, c: nat)
    requires 0 < c && x < 2 * c
    ensures x % c == if x < c then x else x - c
  {
    if x < c {
      assert x == c * 0 + x;
    } else {
      assert x == c * 1 + (x - c);
    }
  }

  /** Position `i` places after `head` in a ring of `capacity` slots. */
  function Slot(head: nat, i: nat, capacity: nat): (r: nat)
    requires head < capacity && i <= capacity
    ensures r < capacity && r == (head + i) % capacity
  {
    ModBelowTwice(head + i, capacity);
    if head + i < capacity then head + i else head + i - capacity
  }

  /** The ring invariant: the block has one slot per unit of capacity, the
      length never exceeds it, and `tail` is `length` slots after `head`. */
  predicate Valid<T>(q: Queue<T>) {
    |q.mem| == q.capacity && q.length <= q.capacity
    && (q.capacity == 0 ==> q.head == 0 && q.tail == 0)
    && (q.capacity > 0 ==> q.head < q.capacity && q.tail == Slot(q.head, q.length, q.capacity))
  }

  /** The queued elements, front first. */
  function Contents<T>(q: Queue<T>): (s: seq<T>)
    requires Valid(q)
    ensures |s| == q.length
  {
    seq(q.length, i requires 0 <= i < q.length => q.mem[Slot(q.head, i, q.capacity)])
  }

  /** The constructor: an empty queue over a fresh block of `capacity` elements. */
  function New<T>(capacity: nat, zero: T): (q: Queue<T>)
    ensures Valid(q) && q.capacity == capacity && Contents(q) == []
  {
    Queue(seq(capacity, _ => zero), 0, 0, capacity, 0)
  }

  /** `Push`: the length check is a fatal assert; the element is written at
      `tail`, which then advances modulo the capacity. */
  function Push<T>(q: Queue<T>, x: T): (r: Queue<T>)
    requires Valid(q) && q.length < q.capacity
    ensures Valid(r) && r.capacity == q.capacity
    ensures Contents(r) == Contents(q) + [x]
  {
    ModBelowTwice(q.tail + 1, q.capacity);
    var r := Queue(q.mem[q.tail := x], q.head, (q.tail + 1) % q.capacity, q.capacity, q.length + 1);
    assert r.tail == Slot(q.head, q.length + 1, q.capacity);
    forall i | 0 <= i < q.length ensures Contents(r)[i] == Contents(q)[i] {
      assert Slot(q.head, i, q.capacity) != q.tail;
    }
    r
  }

  /** `Peek`: the front element; the queue must not be empty. */
  function Peek<T>(q: Queue<T>): (x: T)
    requires Valid(q) && q.length > 0
    ensures x == Contents(q)[0]
  {
    q.mem[q.head]
  }

  /** The queue after a pop and the element taken. */
  datatype Taken<T> = Taken(queue: Queue<T>, value: T)

  /** `Pop` with the front index wrapped like the tail: the front element is
      returned and the rest stay in order. */
  function Pop<T>(q: Queue<T>): (r: Taken<T>)
    requires Valid(q) && q.length > 0
    ensures Valid(r.queue) && r.queue.capacity == q.capacity
    ensures r.value == Contents(q)[0] && Contents(r.queue) == Contents(q)[1..]
  {
    ModBelowTwice(q.head + 1, q.capacity);
    var r := Queue(q.mem, (q.head + 1) % q.capacity, q.tail, q.capacity, q.length - 1);
    assert r.head == Slot(q.head, 1, q.capacity);
    forall i | 0 <= i < r.length ensures Contents(r)[i] == Contents(q)[i + 1] {
      assert Slot(r.head, i, q.capacity) == Slot(q.head, i + 1, q.capacity);
    }
    Taken(r, q.mem[q.head])
  }

  /** The state after a pop as written and the slot index it read. */
  datatype Popped<T> = Popped(queue: Queue<T>, index: nat)

  /** `Pop` as written: the front index is incremented without wrapping. */
  function PopAsWritten<T>(q: Queue<T>): (r: Popped<T>)
    requires q.length > 0
    ensures r.index == q.head && r.queue.head == q.head + 1
    ensures r.queue.length == q.length - 1 && r.queue.tail == q.tail && r.queue.mem == q.mem
  {
    Popped(q.(head := q.head + 1, length := q.length - 1), q.head)
  }

  /** A capacity-2 queue: push a, push b, pop, push c, pop, pop.  As
      written the third pop reads slot 2 of a 2-slot block instead of the
      `c` stored in slot 0; with the wrapping pop the three pops return a,
      b and c. */
  lemma {:induction false} PopNeverWraps<T>(a: T, b: T, c: T, zero: T)
    ensures var q2 := Push(Push(New(2, zero), a), b);
            var p1 := PopAsWritten(q2);
            Valid(p1.queue) && p1.queue.length < p1.queue.capacity
            && var p2 := PopAsWritten(Push(p1.queue, c));
               var p3 := PopAsWritten(p2.queue);
               p3.index == 2 && p3.index >= |p3.queue.mem|
    ensures var q2 := Push(Push(New(2, zero), a), b);
            var t1 := Pop(q2);
            t1.queue.length < t1.queue.capacity
            && var t2 := Pop(Push(t1.queue, c));
               var t3 := Pop(t2.queue);
               [t1.value, t2.value, t3.value] == [a, b, c]
  {
    var q2 := Push(Push(New(2, zero), a), b);
    assert Contents(q2) == [a, b];
    var t1 := Pop(q2);
    var q3 := Push(t1.queue, c);
    assert Contents(q3) == [b, c];
  }

  /** Pushing `xs` in order. */
  function PushAll<T>(q: Queue<T>, xs: seq<T>): (r: Queue<T>)
    requires Valid(q) && q.length + |xs| <= q.capacity
    ensures Valid(r) && r.capacity == q.capacity
    ensures Contents(r) == Contents(q) + xs
    decreases |xs|
  {
    if |xs| == 0 then q
    else
      var r := PushAll(Push(q, xs[0]), xs[1..]);
      assert Contents(q) + [xs[0]] + xs[1..] == Contents(q) + xs;
      r
  }

  /** The elements `n` successive pops return. */
  function PopN<T>(q: Queue<T>, n: nat): (r: seq<T>)
    requires Valid(q) && n <= q.length
    ensures r == Contents(q)[..n]
    decreases n
  {
    if n == 0 then []
    else
      var t := Pop(q);
      [t.value] + PopN(t.queue, n - 1)
  }

  /** First in, first out: filling a fresh queue and draining it returns the
      elements in the order they were pushed. */
  lemma {:induction false} Fifo<T>(xs: seq<T>, capacity: nat, zero: T)
    requires |xs| <= capacity
    ensures PopN(PushAll(New(capacity, zero), xs), |xs|) == xs
  {
  }

  /** The destination and the source of a move. */
  datatype Moved<T> = Moved(target: Queue<T>, source: Queue<T>)

  /** Move construction and move assignment with the capacity reset the
      source needs: the source is left as an empty queue over no block. */
  function Move<T>(q: Queue<T>): (r: Moved<T>)
    requires Valid(q)
    ensures r.target == q && Valid(r.source) && Contents(r.source) == []
    ensures !(r.source.length < r.source.capacity)
  {
    Moved(q, Queue([], 0, 0, 0, 0))
  }

  /** Move construction and move assignment as written: the source's block
      goes to the destination, its head, tail and length are reset, but its
      capacity is kept. */
  function MoveAsWritten<T>(q: Queue<T>): (r: Moved<T>)
    requires Valid(q)
    ensures r.target == q
    ensures r.source.mem == [] && r.source.capacity == q.capacity && r.source.length == 0
  {
    Moved(q, Queue([], 0, 0, q.capacity, 0))
  }

  /** After the written move, `Push` on the source passes its length check
      and writes through the moved-away (null) block; with the capacity
      reset the check stops it. */
  lemma {:induction false} MovedFromQueueAcceptsPush<T>(q: Queue<T>)
    requires Valid(q) && q.capacity > 0
    ensures var s := MoveAsWritten(q).source;
            s.length < s.capacity && s.tail >= |s.mem| && !Valid(s)
    ensures var s := Move(q).source;
            Valid(s) && !(s.length < s.capacity)
  {
  }
}
