/** The ownership wrappers: `UniqueHandle` (move-only owner) and
    `WeakHandle` (copyable, non-owning).  A wrapper is a handle-table slot
    (absent for the null pointer) and a validity flag.  The operations here
    touch only wrapper state; the ones that free memory live in `Manager`. */
module Handles {
  import opened Arena

  /** The state both wrappers carry: the handle pointer and the validity flag. */
  datatype Wrapper = Wrapper(handle: Option<nat>, isValid: bool)

  /** The null, invalid wrapper a move or a detach leaves behind, and the
      default-constructed `WeakHandle`. */
  const Null: Wrapper := Wrapper(None, false)

  /** The slot a wrapper owns, if any. */
  function Own(w: Wrapper): multiset<nat> {
    if w.isValid && w.handle.Some? then multiset{w.handle.value} else multiset{}
  }

  /** Construction from a handle pointer: the wrapper is valid. */
  function FromHandle(slot: nat): (w: Wrapper)
    ensures w.isValid && w.handle == Some(slot)
    ensures Own(w) == multiset{slot}
  {
    Wrapper(Some(slot), true)
  }

  /** A pair of wrappers: the destination and the source of a move or copy. */
  datatype Pair = Pair(target: Wrapper, source: Wrapper)

  /** Move construction (both wrappers): the new wrapper takes the pointer
      and validity, the source becomes null and invalid. */
  function MoveConstruct(source: Wrapper): (r: Pair)
    ensures r.target == source && r.source == Null
    ensures Own(r.target) == Own(source) && Own(r.source) == multiset{} && Same(r.target, source)
  {
    Pair(source, Null)
  }

  /** `WeakHandle` move assignment: the old target state is dropped without
      freeing anything. */
  function WeakMoveAssign(target: Wrapper, source: Wrapper): (r: Pair)
    ensures r.target == source && r.source == Null
    ensures Same(r.target, source) && !Same(r.source, source) <==> source.handle.Some?
    ensures Own(r.target) + Own(r.source) == Own(source)
  {
    Pair(source, Null)
  }

  /** `WeakHandle` move assignment from itself (`w = std::move(w)`): the
      state is copied onto itself and then the source reset, which is the
      same wrapper, nulls it.  The pointer is lost. */
  function WeakSelfMoveAssign(w: Wrapper): (r: Wrapper)
    ensures r == WeakMoveAssign(w, w).source
    ensures !Same(r, w) <==> w.handle.Some?
    ensures Own(r) == multiset{}
  {
    Null
  }

  /** `WeakHandle` copy construction and copy assignment, and construction
      from a `UniqueHandle`: pointer and validity are duplicated and the
      source is left unchanged. */
  function Copy(source: Wrapper): (r: Pair)
    ensures r.target == source && r.source == source
  {
    Pair(source, source)
  }

  /** The detached wrapper and the handle it gave up. */
  datatype Detached = Detached(wrapper: Wrapper, handle: Option<nat>)

  /** `Detach` (both wrappers): hand back the pointer, leave the wrapper null
      and invalid.  Nothing is freed. */
  function Detach(w: Wrapper): (r: Detached)
    ensures r.handle == w.handle && r.wrapper == Null
    ensures Own(r.wrapper) == multiset{} && (w.handle.Some? ==> Same(FromHandle(r.handle.value), w))
  {
    Detached(Null, w.handle)
  }

  /** `operator==` (both wrappers): identity of the handle pointer; validity
      is ignored. */
  predicate Same(x: Wrapper, y: Wrapper) {
    x.handle == y.handle
  }

  /** Moving a wrapper out and moving it back restores it and leaves the
      intermediate wrapper null. */
  lemma {:induction false} MoveBackRestores(w: Wrapper)
    ensures var p := MoveConstruct(w);
            var q := WeakMoveAssign(p.source, p.target);
            q.target == w && q.source == Null
  {
  }

  /** A copy compares equal to its source, and so does the detached pointer
      once wrapped again. */
  lemma {:induction false} CopyAndDetachKeepIdentity(w: Wrapper)
    requires w.handle.Some?
    ensures Same(Copy(w).target, w)
    ensures Same(FromHandle(Detach(w).handle.value), w)
    ensures !Detach(w).wrapper.isValid
  {
  }

  /** The slots owned by the valid wrappers of a collection, with multiplicity. */
  function Owned(ws: seq<Wrapper>): multiset<nat> {
    if |ws| == 0 then multiset{} else Own(ws[0]) + Owned(ws[1..])
  }

  lemma {:induction false} OwnedConcat(xs: seq<Wrapper>, ys: seq<Wrapper>)
    ensures Owned(xs + ys) == Owned(xs) + Owned(ys)
  {
    if |xs| == 0 {
      assert xs + ys == ys;
    } else {
      assert (xs + ys)[1..] == xs[1..] + ys;
      OwnedConcat(xs[1..], ys);
    }
  }

  lemma {:induction false} OwnedSplit(ws: seq<Wrapper>, i: nat)
    requires i < |ws|
    ensures Owned(ws) == Owned(ws[..i]) + Own(ws[i]) + Owned(ws[i + 1..])
  {
    var head, tail := ws[..i], [ws[i]] + ws[i + 1..];
    assert Owned(ws) == Owned(head) + Owned(tail) by {
      assert ws == head + tail;
      OwnedConcat(head, tail);
    }
    assert Owned(tail) == Own(ws[i]) + Owned(ws[i + 1..]) by {
      assert tail[0] == ws[i] && tail[1..] == ws[i + 1..];
    }
  }

  /** Replacing one wrapper of a collection changes the owned slots by
      exactly what that wrapper owned before and after. */
  lemma {:induction false} OwnedUpdate(ws: seq<Wrapper>, i: nat, w: Wrapper)
    requires i < |ws|
    ensures Owned(ws[i := w]) + Own(ws[i]) == Owned(ws) + Own(w)
  {
    var ws' := ws[i := w];
    OwnedSplit(ws, i);
    OwnedSplit(ws', i);
    assert ws'[..i] == ws[..i] && ws'[i + 1..] == ws[i + 1..];
  }

  /** Move-constructing wrapper `j` from wrapper `i` (with `j` not owning
      anything) keeps the owned slots of a collection unchanged: ownership
      is transferred, never duplicated or lost. */
  lemma {:induction false} MoveKeepsOwnership(ws: seq<Wrapper>, i: nat, j: nat)
    requires i < |ws| && j < |ws| && i != j
    requires !ws[j].isValid
    ensures var p := MoveConstruct(ws[i]);
            Owned(ws[j := p.target][i := p.source]) == Owned(ws)
  {
    var p := MoveConstruct(ws[i]);
    var ws1 := ws[j := p.target];
    OwnedUpdate(ws, j, p.target);
    assert Own(ws[j]) == multiset{} && Own(Null) == multiset{};
    assert Owned(ws1) == Owned(ws) + Own(ws[i]);
    OwnedUpdate(ws1, i, p.source);
    assert ws1[i] == ws[i];
    var after, x := Owned(ws1[i := Null]), Own(ws[i]);
    assert after + x == Owned(ws) + x;
    forall s ensures after[s] == Owned(ws)[s] {
      assert (after + x)[s] == (Owned(ws) + x)[s];
    }
  }
}
