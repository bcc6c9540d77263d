/**
 Properties that relate several operations of shared_ptr_vector: each one
 keeps the reference-count invariant of a whole world of containers, push and
 pop undo each other, and copies or aliases are released without freeing what
 another handle still owns.
 */
module Lifecycle {
  import opened Slots
  import opened Heaps
  import opened Ownership
  import opened SharedPtrVector

  // ---------------------------------------------------------------------------
  // Every operation keeps each object's count equal to its number of handles.

  /** `shared_ptr_vector(n)` joins the world owning nothing. */
  lemma SizedKeepsAccounting<T>(h: Heap<T>, w: seq<Vector>, n: nat)
    requires Accounted(h, w)
    ensures Accounted(h, w + [Sized(n)])
  {
    AccountedOpen(h, w);
    assert (w + [[]])[|w| := Sized(n)] == w + [Sized(n)];
    AccountedAfterTransfer(h, w + [[]], |w|, h, Sized(n));
  }

  /** `shared_ptr_vector(n, p)` joins the world with `n` handles to `p`. */
  lemma SizedAliasKeepsAccounting<T>(h: Heap<T>, w: seq<Vector>, n: nat, p: Ptr)
    requires Accounted(h, w) && Adoptable(h, p)
    ensures Accounted(SizedAlias(n, p, h).heap, w + [SizedAlias(n, p, h).vec])
  {
    var r := SizedAlias(n, p, h);
    AccountedOpen(h, w);
    assert (w + [[]])[|w| := r.vec] == w + [r.vec];
    AccountedAfterTransfer(h, w + [[]], |w|, r.heap, r.vec);
  }

  /** A copy of container `k` joins the world sharing its handles. */
  lemma CopyKeepsAccounting<T>(h: Heap<T>, w: seq<Vector>, k: nat)
    requires Accounted(h, w) && k < |w|
    ensures LiveRefs(h, w[k])
    ensures Accounted(Copy(w[k], h).heap, w + [Copy(w[k], h).vec])
  {
    AccountedOwned(h, w, k);
    var r := Copy(w[k], h);
    AccountedOpen(h, w);
    assert (w + [[]])[|w| := r.vec] == w + [r.vec];
    AccountedAfterTransfer(h, w + [[]], |w|, r.heap, r.vec);
  }

  /** Assigning container `j` to container `k`. */
  lemma CopyAssignKeepsAccounting<T>(h: Heap<T>, w: seq<Vector>, k: nat, j: nat)
    requires Accounted(h, w) && k < |w| && j < |w|
    ensures LiveRefs(h, w[j]) && Owned(h, w[k])
    ensures Accounted(CopyAssign(w[k], w[j], h).heap, w[k := CopyAssign(w[k], w[j], h).vec])
  {
    AccountedOwned(h, w, j);
    AccountedOwned(h, w, k);
    var r := CopyAssign(w[k], w[j], h);
    AccountedAfterTransfer(h, w, k, r.heap, r.vec);
  }

  /** `push_back(p)` on container `k`. */
  lemma PushBackPtrKeepsAccounting<T>(h: Heap<T>, w: seq<Vector>, k: nat, p: Ptr)
    requires Accounted(h, w) && k < |w| && Adoptable(h, p)
    ensures Accounted(PushBackPtr(w[k], h, p).heap, w[k := PushBackPtr(w[k], h, p).vec])
  {
    var r := PushBackPtr(w[k], h, p);
    AccountedAfterTransfer(h, w, k, r.heap, r.vec);
  }

  /** `push_back(x)` on container `k`. */
  lemma PushBackValueKeepsAccounting<T>(h: Heap<T>, w: seq<Vector>, k: nat, x: T)
    requires Accounted(h, w) && k < |w|
    ensures Accounted(PushBackValue(w[k], h, x).heap, w[k := PushBackValue(w[k], h, x).vec])
  {
    var r := PushBackValue(w[k], h, x);
    AccountedAfterTransfer(h, w, k, r.heap, r.vec);
  }

  /** `pop_back()` on a non-empty container `k`: the invariant alone makes it
      safe to release the last handle. */
  lemma PopBackKeepsAccounting<T>(h: Heap<T>, w: seq<Vector>, k: nat)
    requires Accounted(h, w) && k < |w| && !IsEmpty(w[k])
    ensures Backed(h, Back(w[k]))
    ensures Accounted(PopBack(w[k], h).heap, w[k := PopBack(w[k], h).vec])
  {
    AccountedOwned(h, w, k);
    OwnedBacked(h, w[k]);
    var r := PopBack(w[k], h);
    AccountedAfterTransfer(h, w, k, r.heap, r.vec);
  }

  /** `w[k].at(n) = s`, for a handle `s` held anywhere in the world or an
      unowned object being adopted: the world stays accounted. */
  lemma AssignAtKeepsAccounting<T>(h: Heap<T>, w: seq<Vector>, k: nat, n: nat, s: Slot)
    requires Accounted(h, w) && k < |w| && n < Size(w[k])
    requires s.Ref? ==> s.id in h.objs
    ensures Owned(h, w[k])
    ensures Accounted(AssignAt(w[k], h, n, s).value.heap, w[k := AssignAt(w[k], h, n, s).value.vec])
  {
    AccountedOwned(h, w, k);
    var r := AssignAt(w[k], h, n, s).value;
    AccountedAfterTransfer(h, w, k, r.heap, r.vec);
  }

  /** Destroying container `k` removes it from the world. */
  lemma DestroyKeepsAccounting<T>(h: Heap<T>, w: seq<Vector>, k: nat)
    requires Accounted(h, w) && k < |w|
    ensures Owned(h, w[k])
    ensures Accounted(Destroy(w[k], h), w[..k] + w[k + 1..])
  {
    AccountedOwned(h, w, k);
    var h' := Destroy(w[k], h);
    AccountedAfterTransfer(h, w, k, h', []);
    var w' := w[k := []];
    AccountedClose(h', w', k);
    assert w'[..k] + w'[k + 1..] == w[..k] + w[k + 1..];
  }

  // ---------------------------------------------------------------------------
  // Release of the last owner

  /** When a container is the only holder of handles, destroying it frees
      every object it refers to and leaves every other object as it was. */
  lemma DestroySoleOwner<T>(h: Heap<T>, v: Vector)
    requires Accounted(h, [v])
    ensures Owned(h, v)
    ensures forall o :: Count(v, o) > 0 ==> o !in Destroy(v, h).objs
    ensures forall o :: Count(v, o) == 0 ==> Untouched(h, Destroy(v, h), o)
  {
    AccountedOwned(h, [v], 0);
    forall o ensures RefsOf(h, o) == Count(v, o) {
      TotalAppend([], v, o);
      assert [] + [v] == [v];
    }
  }

  /** Copying a container and destroying the copy leaves the heap exactly as
      it was: the copy shared handles and never owned an object alone. */
  lemma CopyThenDestroy<T>(v: Vector, h: Heap<T>, c: Step<T>)
    requires Owned(h, v)
    requires LiveRefs(h, v) && c == Copy(v, h)
    ensures Owned(c.heap, c.vec)
    ensures Destroy(c.vec, c.heap).objs == h.objs
  {
    CopyOwned(v, h, c);
    var d := Destroy(c.vec, c.heap);
    assert d.objs.Keys <= h.objs.Keys;
    forall o | o in h.objs
      ensures o in d.objs && d.objs[o] == h.objs[o]
    {
      CopyThenDestroyAt(v, h, c, o);
    }
  }

  /** A copy's handles are accounted for by the heap the copy produced. */
  lemma CopyOwned<T>(v: Vector, h: Heap<T>, c: Step<T>)
    requires LiveRefs(h, v) && c == Copy(v, h)
    ensures Owned(c.heap, c.vec)
  {
    forall id ensures Count(v, id) <= RefsOf(c.heap, id) {
      assert RefsOf(c.heap, id) == RefsOf(h, id) + Count(v, id);
    }
  }

  /** One object through a copy and the copy's destruction. */
  lemma CopyThenDestroyAt<T>(v: Vector, h: Heap<T>, c: Step<T>, o: ObjId)
    requires Owned(h, v) && LiveRefs(h, v) && c == Copy(v, h) && o in h.objs
    requires Owned(c.heap, c.vec)
    ensures o in Destroy(c.vec, c.heap).objs && Destroy(c.vec, c.heap).objs[o] == h.objs[o]
  {
    var d := Destroy(c.vec, c.heap);
    assert Count(v, o) <= RefsOf(h, o);
    assert RefsOf(c.heap, o) == RefsOf(h, o) + Count(v, o);
    assert RefsOf(d, o) + Count(v, o) == RefsOf(c.heap, o);
    if Count(v, o) == 0 {
      assert Untouched(h, c.heap, o) && Untouched(c.heap, d, o);
    } else {
      assert o in d.objs <==> RefsOf(c.heap, o) > Count(v, o);
      assert d.objs[o].val == c.heap.objs[o].val == h.objs[o].val;
    }
  }

  // ---------------------------------------------------------------------------
  // push_back and pop_back undo each other on the container

  /** Adopting `p` and popping it again restores the container; the popped
      handle was `p`'s only owner, so `p` is freed. */
  lemma PushBackPtrThenPopBack<T>(v: Vector, h: Heap<T>, p: Ptr, r: Step<T>)
    requires Adoptable(h, p) && r == PushBackPtr(v, h, p)
    ensures !IsEmpty(r.vec) && Backed(r.heap, Back(r.vec))
    ensures PopBack(r.vec, r.heap).vec == v
    ensures PopBack(r.vec, r.heap).heap.objs == if p.Addr? then h.objs - {p.id} else h.objs
  {
    var s := PopBack(r.vec, r.heap);
    if p.Addr? {
      forall o | o in h.objs && o != p.id
        ensures o in s.heap.objs && s.heap.objs[o] == h.objs[o]
      {
        assert Untouched(h, r.heap, o) && Untouched(r.heap, s.heap, o);
      }
    } else {
      forall o | o in h.objs
        ensures o in s.heap.objs && s.heap.objs[o] == h.objs[o]
      {
        assert Untouched(h, r.heap, o) && Untouched(r.heap, s.heap, o);
      }
    }
  }

  /** Pushing a value and popping it again restores container and heap: the
      copy `push_back` allocated is freed again. */
  lemma PushBackValueThenPopBack<T>(v: Vector, h: Heap<T>, x: T, r: Step<T>)
    requires r == PushBackValue(v, h, x)
    ensures !IsEmpty(r.vec) && Backed(r.heap, Back(r.vec))
    ensures PopBack(r.vec, r.heap).vec == v
    ensures PopBack(r.vec, r.heap).heap.objs == h.objs
  {
    var s := PopBack(r.vec, r.heap);
    forall o | o in h.objs
      ensures o in s.heap.objs && s.heap.objs[o] == h.objs[o]
    {
      assert Untouched(h, r.heap, o) && Untouched(r.heap, s.heap, o);
    }
  }

  // ---------------------------------------------------------------------------
  // Checked access after a modifier

  /** After `push_back(p)`, `at` answers as before below the old size, gives
      the adopted handle at the old size, and is out of range beyond. */
  lemma AtAfterPushBack<T>(v: Vector, h: Heap<T>, p: Ptr, n: nat)
    requires Adoptable(h, p)
    ensures At(PushBackPtr(v, h, p).vec, n)
         == if n < Size(v) then At(v, n) else if n == Size(v) then Ok(Adopt(p)) else Err(OutOfRange)
  {
    var r := PushBackPtr(v, h, p);
    if n < Size(v) {
      assert r.vec[n] == r.vec[..Size(v)][n];
    } else if n == Size(v) {
      AdoptGet(p, Back(r.vec));
    }
  }

  /** After `pop_back()`, `at` answers as before below the new size and the
      old last index is out of range. */
  lemma AtAfterPopBack<T>(v: Vector, h: Heap<T>, n: nat)
    requires !IsEmpty(v) && Backed(h, Back(v))
    ensures At(PopBack(v, h).vec, n) == if n < Size(v) - 1 then At(v, n) else Err(OutOfRange)
  {
  }

  /** After `at(n) = s`, `at` gives `s` at `n` and answers as before elsewhere. */
  lemma AtAfterAssign<T>(v: Vector, h: Heap<T>, n: nat, s: Slot, i: nat)
    requires (s.Ref? ==> s.id in h.objs) && Owned(h, v) && n < Size(v)
    ensures At(AssignAt(v, h, n, s).value.vec, i) == if i == n then Ok(s) else At(v, i)
  {
  }
}
