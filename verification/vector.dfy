/** `Vector<T>`: a growable array over a block it owns.  Element values are
    abstract; `zero` stands for the zero-filled bytes of a fresh block. */
module Growable {

  datatype Vector<T> = Vector(mem: seq<T>, capacity: nat, length: nat)

  /** The block has one slot per unit of capacity and the length fits in it. */
  predicate Valid<T>(v: Vector<T>) {
    |v.mem| == v.capacity && v.length <= v.capacity
  }

  /** The stored elements, first to last. */
  function Elements<T>(v: Vector<T>): (s: seq<T>)
    requires Valid(v)
    ensures |s| == v.length
  {
    v.mem[..v.length]
  }

  /** The constructor: an empty vector over a fresh block of `capacity` elements. */
  function New<T>(capacity: nat, zero: T): (v: Vector<T>)
    ensures Valid(v) && v.capacity == capacity && Elements(v) == []
  {
    Vector(seq(capacity, _ => zero), capacity, 0)
  }

  /** The capacity `Resize` grows to. */
  function Grown(capacity: nat): nat {
    capacity * 2 + 1
  }

  /** `Resize`: allocate a fresh block of `2c+1` elements, copy the first
      `c` elements over and release the old block. */
  function Resize<T>(v: Vector<T>, zero: T): (r: Vector<T>)
    requires Valid(v)
    ensures Valid(r) && r.capacity == Grown(v.capacity) > v.capacity
    ensures r.length == v.length && Elements(r) == Elements(v)
    ensures r.mem[..v.capacity] == v.mem
  {
    var r := Vector(v.mem + seq(v.capacity + 1, _ => zero), Grown(v.capacity), v.length);
    assert r.mem[..v.length] == v.mem[..v.length];
    r
  }

  /** `Push`: grow when full, then store at the old length. */
  function Push<T>(v: Vector<T>, x: T, zero: T): (r: Vector<T>)
    requires Valid(v)
    ensures Valid(r) && Elements(r) == Elements(v) + [x]
    ensures r.capacity == if v.length == v.capacity then Grown(v.capacity) else v.capacity
  {
    var g := if v.length == v.capacity then Resize(v, zero) else v;
    var r := Vector(g.mem[g.length := x], g.capacity, g.length + 1);
    assert r.mem[..r.length] == g.mem[..g.length] + [x];
    r
  }

  /** The vector after a pop and the element taken. */
  datatype Taken<T> = Taken(vector: Vector<T>, value: T)

  /** `Pop`: the last element; the vector must not be empty. */
  function Pop<T>(v: Vector<T>): (r: Taken<T>)
    requires Valid(v) && v.length > 0
    ensures Valid(r.vector) && r.vector.capacity == v.capacity
    ensures r.value == Elements(v)[v.length - 1]
    ensures Elements(r.vector) + [r.value] == Elements(v)
  {
    var r := v.(length := v.length - 1);
    assert Elements(r) + [v.mem[v.length - 1]] == Elements(v);
    Taken(r, v.mem[v.length - 1])
  }

  /** Element access with the bound the indexing operator evidently means:
      every stored index, including 0. */
  function Get<T>(v: Vector<T>, i: nat): (x: T)
    requires Valid(v) && i < v.length
    ensures x == Elements(v)[i]
  {
    v.mem[i]
  }

  /** The index check `operator[]` and `Remove` assert as written: the index
      is below the length and positive. */
  predicate WrittenIndexOk<T>(v: Vector<T>, i: nat) {
    0 < i < v.length
  }

  /** `operator[]` as written: it also asserts the index is positive. */
  function GetAsWritten<T>(v: Vector<T>, i: nat): (x: T)
    requires Valid(v) && WrittenIndexOk(v, i)
    ensures x == Get(v, i)
  {
    v.mem[i]
  }

  /** `Remove(i)` with the bound the operation evidently means: destroy the
      element at `i` and shift the rest down one place. */
  function Remove<T>(v: Vector<T>, i: nat): (r: Vector<T>)
    requires Valid(v) && i < v.length
    ensures Valid(r) && r.capacity == v.capacity && r.length == v.length - 1
    ensures Elements(r) == Elements(v)[..i] + Elements(v)[i + 1..]
  {
    var mem := v.mem[..i] + v.mem[i + 1..v.length] + [v.mem[v.length - 1]] + v.mem[v.length..];
    var r := Vector(mem, v.capacity, v.length - 1);
    assert r.mem[..r.length] == v.mem[..i] + v.mem[i + 1..v.length];
    r
  }

  /** `Remove(i)` as written: it also asserts the index is positive. */
  function RemoveAsWritten<T>(v: Vector<T>, i: nat): (r: Vector<T>)
    requires Valid(v) && WrittenIndexOk(v, i)
    ensures r == Remove(v, i)
  {
    Remove(v, i)
  }

  /** The first element is out of reach as written: the written index check
      of `operator[]` and `Remove` rejects index 0 on every vector, although
      index 0 holds a stored element that the intended operations reach; it
      accepts every other stored index. */
  lemma {:induction false} FirstElementUnreachable<T>(v: Vector<T>)
    requires Valid(v) && v.length > 0
    ensures !WrittenIndexOk(v, 0)
    ensures forall i :: 0 < i < v.length ==> WrittenIndexOk(v, i)
    ensures Get(v, 0) == Elements(v)[0]
    ensures Elements(Remove(v, 0)) == Elements(v)[1..]
  {
  }

  /** Pushing `xs` in order. */
  function PushAll<T>(v: Vector<T>, xs: seq<T>, zero: T): (r: Vector<T>)
    requires Valid(v)
    ensures Valid(r) && Elements(r) == Elements(v) + xs
    decreases |xs|
  {
    if |xs| == 0 then v
    else
      var r := PushAll(Push(v, xs[0], zero), xs[1..], zero);
      assert Elements(v) + [xs[0]] + xs[1..] == Elements(v) + xs;
      r
  }

  function Reverse<T>(s: seq<T>): (r: seq<T>)
    ensures |r| == |s| && forall i :: 0 <= i < |s| ==> r[i] == s[|s| - 1 - i]
  {
    if |s| == 0 then [] else [s[|s| - 1]] + Reverse(s[..|s| - 1])
  }

  /** The elements `n` successive pops return. */
  function PopN<T>(v: Vector<T>, n: nat): (r: seq<T>)
    requires Valid(v) && n <= v.length
    ensures r == Reverse(Elements(v)[v.length - n..])
    decreases n
  {
    if n == 0 then []
    else
      var t := Pop(v);
      var rest := PopN(t.vector, n - 1);
      assert Elements(t.vector)[t.vector.length - (n - 1)..] + [t.value] == Elements(v)[v.length - n..];
      [t.value] + rest
  }

  /** Last in, first out: pushing `xs` onto an empty vector and popping them
      all returns them in reverse order, whatever the starting capacity. */
  lemma {:induction false} Lifo<T>(xs: seq<T>, capacity: nat, zero: T)
    ensures var v := PushAll(New(capacity, zero), xs, zero);
            PopN(v, |xs|) == Reverse(xs)
  {
    var v := PushAll(New(capacity, zero), xs, zero);
    assert Elements(v)[v.length - |xs|..] == xs;
  }

  /** The destination and the source of a move. */
  datatype Moved<T> = Moved(target: Vector<T>, source: Vector<T>)

  /** Move construction and move assignment: the destination takes the
      block, capacity and length; the source is left empty over no block. */
  function Move<T>(v: Vector<T>): (r: Moved<T>)
    requires Valid(v)
    ensures r.target == v && Valid(r.source) && r.source.capacity == 0 && Elements(r.source) == []
  {
    Moved(v, Vector([], 0, 0))
  }

  /** With `Resize` as a fresh block and a copy, a moved-from vector is
      usable again: its first push grows it to one slot. */
  lemma {:induction false} MovedFromVectorReusable<T>(v: Vector<T>, x: T, zero: T)
    requires Valid(v)
    ensures var s := Push(Move(v).source, x, zero);
            Elements(s) == [x] && s.capacity == 1
  {
  }
}
