/**
 The live members of `shared_ptr_vector<T>`: an ordered sequence of
 `std::shared_ptr<T>` handles stored in a `std::vector`.

 Every operation is a pure function from the container (and, where handles
 are created or destroyed, the heap) to the new container and heap. Each one
 that creates or destroys handles promises `Transfers`, so by
 `Ownership.AccountedAfterTransfer` it keeps every object's count equal to the
 number of handles to it.
 */
module SharedPtrVector {
  import opened Slots
  import opened Heaps
  import opened Ownership

  /** `std::out_of_range`, thrown by the checked accessor. */
  datatype Error = OutOfRange

  datatype Result<R> = Ok(value: R) | Err(error: Error)

  /** A container after an operation, with the heap it shares with every other handle. */
  datatype Step<T> = Step(vec: Vector, heap: Heap<T>)

  // ---------------------------------------------------------------------------
  // Queries

  /** `size()`: the number of slots, empty or occupied: the null slots plus
      one per handle that owns an object. */
  function Size(v: Vector): nat
  {
    |v|
  }

  /** `empty()`. */
  function IsEmpty(v: Vector): (b: bool)
    ensures b <==> Size(v) == 0
  {
    |v| == 0
  }

  /** `at(n)`: the handle at index `n`, or `out_of_range` when `n >= size()`.
      `n` is a `size_type`, so it is never negative. */
  function At(v: Vector, n: nat): (r: Result<Slot>)
    ensures r.Ok? <==> n < Size(v)
    ensures r.Ok? ==> r.value == v[n]
    ensures r.Err? ==> r.error == OutOfRange
  {
    if n < |v| then Ok(v[n]) else Err(OutOfRange)
  }

  /** `front()`: what `at(0)` returns; calling it on an empty container is
      undefined behaviour. */
  function Front(v: Vector): (s: Slot)
    requires !IsEmpty(v)
    ensures At(v, 0) == Ok(s)
  {
    v[0]
  }

  /** `back()`: what `at(size() - 1)` returns; calling it on an empty
      container is undefined behaviour. */
  function Back(v: Vector): (s: Slot)
    requires !IsEmpty(v)
    ensures At(v, Size(v) - 1) == Ok(s)
  {
    v[|v| - 1]
  }

  // ---------------------------------------------------------------------------
  // Construction, copy and destruction

  /** The default constructor: no slots. */
  function Default(): (v: Vector)
    ensures IsEmpty(v)
    ensures forall id :: Count(v, id) == 0
  {
    []
  }

  /** `shared_ptr_vector(n)`: `n` value-initialised handles, all null. */
  function Sized(n: nat): (v: Vector)
    ensures Size(v) == n
    ensures forall i :: 0 <= i < n ==> Get(v[i]) == Null
    ensures forall id :: Count(v, id) == 0
  {
    CountFillAll(n, Empty);
    Fill(n, Empty)
  }

  /** `shared_ptr_vector(n, p)`: one temporary handle adopts `p`, the vector
      is filled with `n` copies of it, and the temporary is destroyed. Every
      slot shares the one object, which ends with `n` owners; with `n == 0`
      the temporary was its only owner, so the object is freed. */
  function SizedAlias<T>(n: nat, p: Ptr, h: Heap<T>): (r: Step<T>)
    requires Adoptable(h, p)
    ensures Size(r.vec) == n
    ensures forall i :: 0 <= i < n ==> Get(r.vec[i]) == p
    ensures p.Addr? && n > 0 ==> p.id in r.heap.objs && r.heap.objs[p.id] == Obj(h.objs[p.id].val, n)
    ensures p.Addr? && n == 0 ==> p.id !in r.heap.objs
    ensures forall o :: Addr(o) != p ==> Untouched(h, r.heap, o)
    ensures Transfers(h, [], r.heap, r.vec)
  {
    match p
    case Null =>
      CountFillAll(n, Empty);
      Step(Fill(n, Empty), h)
    case Addr(id) =>
      var h1 := Retain(h, id);
      var v := Fill(n, Ref(id));
      CountFillAll(n, Ref(id));
      var h2 := RetainAll(h1, v);
      var h3 := Release(h2, id);
      assert forall o :: o != id ==> Untouched(h, h3, o) by {
        forall o | o != id ensures Untouched(h, h3, o) {
          assert Untouched(h, h1, o) && Count(v, o) == 0;
          assert Untouched(h1, h2, o) && Untouched(h2, h3, o);
        }
      }
      Step(v, h3)
  }

  /** The implicit copy constructor copies the member `std::vector`: the copy
      holds the same handles, so every object gains one owner per slot that
      refers to it and no object is copied. */
  function Copy<T>(v: Vector, h: Heap<T>): (r: Step<T>)
    requires LiveRefs(h, v)
    ensures Size(r.vec) == Size(v)
    ensures forall i :: 0 <= i < Size(v) ==> Get(r.vec[i]) == Get(v[i])
    ensures forall id :: RefsOf(r.heap, id) == RefsOf(h, id) + Count(v, id)
    ensures r.heap.objs.Keys == h.objs.Keys
    ensures forall o :: Count(v, o) == 0 ==> Untouched(h, r.heap, o)
    ensures Transfers(h, [], r.heap, r.vec)
  {
    Step(v, RetainAll(h, v))
  }

  /** The destructor destroys every handle, one `pop_back` at a time: each
      object loses one owner per slot, and exactly those objects whose every
      owner was in this container are freed. */
  function Destroy<T>(v: Vector, h: Heap<T>): (r: Heap<T>)
    requires Owned(h, v)
    ensures Transfers(h, v, r, [])
    ensures r.objs.Keys <= h.objs.Keys
    ensures forall o :: Count(v, o) == 0 ==> Untouched(h, r, o)
    ensures forall o :: o in h.objs && Count(v, o) > 0 ==> (o in r.objs <==> RefsOf(h, o) > Count(v, o))
    decreases |v|
  {
    if IsEmpty(v) then h
    else
      OwnedBacked(h, v);
      var s := PopBack(v, h);
      OwnedAfterTransfer(h, v, s.heap, s.vec);
      var r := Destroy(s.vec, s.heap);
      TransfersTrans(h, v, s.heap, s.vec, r, []);
      r
  }

  /** The implicit copy assignment `dst = src`: the handles of `src` are
      copied first and the old handles of `dst` destroyed after, so an object
      held by both survives. */
  function CopyAssign<T>(dst: Vector, src: Vector, h: Heap<T>): (r: Step<T>)
    requires LiveRefs(h, src) && Owned(h, dst)
    ensures Size(r.vec) == Size(src)
    ensures forall i :: 0 <= i < Size(src) ==> Get(r.vec[i]) == Get(src[i])
    ensures forall id :: Count(src, id) > 0 ==> id in r.heap.objs
    ensures forall o :: Count(dst, o) == 0 && Count(src, o) == 0 ==> Untouched(h, r.heap, o)
    ensures Transfers(h, dst, r.heap, r.vec)
  {
    var c := Copy(src, h);
    var r := Destroy(dst, c.heap);
    TransfersTrans(h, dst, c.heap, dst + src, r, src);
    Step(src, r)
  }

  // ---------------------------------------------------------------------------
  // Modifiers

  /** `push_back(p)` for a raw pointer: a new handle adopts `p` and is appended. */
  function PushBackPtr<T>(v: Vector, h: Heap<T>, p: Ptr): (r: Step<T>)
    requires Adoptable(h, p)
    ensures Size(r.vec) == Size(v) + 1
    ensures r.vec[..Size(v)] == v
    ensures Get(Back(r.vec)) == p
    ensures p.Addr? ==> p.id in r.heap.objs && r.heap.objs[p.id] == Obj(h.objs[p.id].val, 1)
    ensures forall o :: Addr(o) != p ==> Untouched(h, r.heap, o)
    ensures Transfers(h, v, r.heap, r.vec)
  {
    var v' := v + [Adopt(p)];
    assert forall id :: Count(v', id) == Count(v, id) + (if Adopt(p) == Ref(id) then 1 else 0) by {
      forall id ensures Count(v', id) == Count(v, id) + (if Adopt(p) == Ref(id) then 1 else 0) {
        CountAppend(v, Adopt(p), id);
      }
    }
    Step(v', if p.Addr? then Retain(h, p.id) else h)
  }

  /** `push_back(x)` for a value: `new T(x)` allocates a copy, which a new
      handle adopts at the back. */
  function PushBackValue<T>(v: Vector, h: Heap<T>, x: T): (r: Step<T>)
    ensures Size(r.vec) == Size(v) + 1
    ensures r.vec[..Size(v)] == v
    ensures Back(r.vec).Ref? && Back(r.vec).id !in h.objs
    ensures Back(r.vec).id in r.heap.objs && r.heap.objs[Back(r.vec).id] == Obj(x, 1)
    ensures forall o :: Untouched(h, r.heap, o)
    ensures Transfers(h, v, r.heap, r.vec)
  {
    var a := New(h, x);
    PushBackPtr(v, a.0, a.1)
  }

  /** Assignment through the writable reference `at(n)` returns:
      `v.at(n) = s` copies the handle `s` in, and `v.at(n).reset(p)` is the
      same with `s == Adopt(p)` for an unowned `p`. The new handle is taken
      before the old one is released, so assigning a slot its own handle
      frees nothing. `front()` and `back()` give the same reference at index
      0 and `size() - 1`. An index out of range throws before any change. */
  function AssignAt<T>(v: Vector, h: Heap<T>, n: nat, s: Slot): (r: Result<Step<T>>)
    requires s.Ref? ==> s.id in h.objs
    requires Owned(h, v)
    ensures r.Ok? <==> n < Size(v)
    ensures r.Err? ==> r.error == OutOfRange
    ensures r.Ok? ==> Size(r.value.vec) == Size(v) && r.value.vec[n] == s
    ensures r.Ok? ==> forall i :: 0 <= i < Size(v) && i != n ==> r.value.vec[i] == v[i]
    ensures r.Ok? && s.Ref? ==> s.id in r.value.heap.objs && r.value.heap.objs[s.id].val == h.objs[s.id].val
    ensures r.Ok? ==> forall o :: Ref(o) != s && Ref(o) != v[n] ==> Untouched(h, r.value.heap, o)
    ensures r.Ok? ==> Transfers(h, v, r.value.heap, r.value.vec)
  {
    if n >= |v| then Err(OutOfRange)
    else
      var prev := v[n];
      var h1 := if s.Ref? then Retain(h, s.id) else h;
      assert prev.Ref? ==> RefsOf(h, prev.id) >= 1 by {
        if prev.Ref? { CountPositive(v, n); }
      }
      var h2 := if prev.Ref? then Release(h1, prev.id) else h1;
      var v' := v[n := s];
      AssignAtHeap(v, h, n, s, h1, h2);
      Ok(Step(v', h2))
  }

  /** The heap side of `AssignAt`: take the new handle, then release the old. */
  lemma AssignAtHeap<T>(v: Vector, h: Heap<T>, n: nat, s: Slot, h1: Heap<T>, h2: Heap<T>)
    requires n < |v| && (s.Ref? ==> s.id in h.objs) && Owned(h, v)
    requires h1 == if s.Ref? then Retain(h, s.id) else h
    requires v[n].Ref? ==> RefsOf(h1, v[n].id) >= 1
    requires h2 == if v[n].Ref? then Release(h1, v[n].id) else h1
    ensures s.Ref? ==> s.id in h2.objs && h2.objs[s.id].val == h.objs[s.id].val
    ensures forall o :: Ref(o) != s && Ref(o) != v[n] ==> Untouched(h, h2, o)
    ensures Transfers(h, v, h2, v[n := s])
  {
    CountUpdateAll(v, n, s);
    if v[n].Ref? {
      CountPositive(v, n);
    }
  }

  /** `size()` counts every slot: the null ones, plus one per handle, and
      so at least as many as the handles to any one object. */
  lemma SizeCountsSlots(v: Vector)
    ensures Size(v) == multiset(v)[Empty] + |Handles(v)|
    ensures forall id :: Count(v, id) <= Size(v)
  {
    forall id ensures Count(v, id) <= Size(v) {
      assert Handles(v)[id] == Count(v, id);
    }
  }

  /** `pop_back()`: the last handle is destroyed. Its object loses one owner
      and is freed if that was the last. Undefined on an empty container. */
  function PopBack<T>(v: Vector, h: Heap<T>): (r: Step<T>)
    requires !IsEmpty(v) && Backed(h, Back(v))
    ensures r.vec == v[..Size(v) - 1]
    ensures Back(v).Ref? ==> RefsOf(r.heap, Back(v).id) == RefsOf(h, Back(v).id) - 1
    ensures Back(v).Ref? ==> (Back(v).id in r.heap.objs <==> RefsOf(h, Back(v).id) > 1)
    ensures forall o :: Addr(o) != Get(Back(v)) ==> Untouched(h, r.heap, o)
    ensures Transfers(h, v, r.heap, r.vec)
  {
    var last := v[|v| - 1];
    var v' := v[..|v| - 1];
    assert v == v' + [last];
    assert forall id :: Count(v, id) == Count(v', id) + (if last == Ref(id) then 1 else 0) by {
      forall id ensures Count(v, id) == Count(v', id) + (if last == Ref(id) then 1 else 0) {
        CountAppend(v', last, id);
      }
    }
    Step(v', if last.Ref? then Release(h, last.id) else h)
  }
}
